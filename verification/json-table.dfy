/** The transition table of lib/json.c, and the same read state by state. */
module JsonTable {

  /** A character of a C string, as a signed char. */
  type Code = x: int | -128 <= x < 128 && x != 0 witness 1

  datatype Option<T> = None | Some(value: T)

  // ----- the table -----

  datatype State = Null | Esc | Body | Colon | Wait | Array | Object | Name | Str | Number | Other

  datatype Transition = Transition(form: State, to: State, code: int, ecode: int, nstack: int, sstack: int, cross: bool)

  /** Row i of transition_table. */
  function Row(i: nat): Transition
    requires i < 28
  {
    if i == 0 then Transition(Object, Name, '"' as int, '"' as int, 1, 1, false)
    else if i == 1 then Transition(Name, Colon, '"' as int, '"' as int, 0, 0, false)
    else if i == 2 then Transition(Colon, Body, ':' as int, ':' as int, 0, 0, false)
    else if i == 3 then Transition(Name, Esc, '\\' as int, '\\' as int, 0, 1, false)
    else if i == 4 then Transition(Str, Esc, '\\' as int, '\\' as int, 0, 1, false)
    else if i == 5 then Transition(Esc, Null, 0, 0, 0, -1, true)
    else if i == 6 then Transition(Body, Array, '[' as int, '[' as int, 0, 0, false)
    else if i == 7 then Transition(Body, Object, '{' as int, '{' as int, 0, 0, false)
    else if i == 8 then Transition(Body, Number, '0' as int, '9' as int, 0, 0, true)
    else if i == 9 then Transition(Body, Str, '"' as int, '"' as int, 0, 0, false)
    else if i == 10 then Transition(Body, Other, 0, 0, 0, 0, true)
    else if i == 11 then Transition(Array, Array, '[' as int, '[' as int, 1, 1, false)
    else if i == 12 then Transition(Array, Object, '{' as int, '{' as int, 1, 1, false)
    else if i == 13 then Transition(Array, Number, '0' as int, '9' as int, 1, 1, true)
    else if i == 14 then Transition(Array, Str, '"' as int, '"' as int, 1, 1, false)
    else if i == 15 then Transition(Array, Other, 0, 0, 1, 1, true)
    else if i == 16 then Transition(Array, Wait, ']' as int, ']' as int, -1, 0, false)
    else if i == 17 then Transition(Object, Wait, '}' as int, '}' as int, -1, 0, false)
    else if i == 18 then Transition(Str, Wait, '"' as int, '"' as int, -1, 0, false)
    else if i == 19 then Transition(Number, Null, ',' as int, ',' as int, -1, -1, false)
    else if i == 20 then Transition(Other, Null, ',' as int, ',' as int, -1, -1, false)
    else if i == 21 then Transition(Wait, Null, ',' as int, ',' as int, 0, -1, false)
    else if i == 22 then Transition(Number, Wait, ']' as int, ']' as int, -2, -1, false)
    else if i == 23 then Transition(Other, Wait, ']' as int, ']' as int, -2, -1, false)
    else if i == 24 then Transition(Wait, Wait, ']' as int, ']' as int, -1, -1, false)
    else if i == 25 then Transition(Number, Wait, '}' as int, '}' as int, -2, -1, false)
    else if i == 26 then Transition(Other, Wait, '}' as int, '}' as int, -2, -1, false)
    else Transition(Wait, Wait, '}' as int, '}' as int, -1, -1, false)
  }

  /** What the search from row i on finds, with the fallback row noted so far. */
  ghost function Scan(i: nat, form: State, c: Code, minor: Option<Transition>): Option<Transition>
    requires i <= 28
    decreases 28 - i
  {
    if i == 28 then minor
    else if Row(i).form != form then Scan(i + 1, form, c, minor)
    else if Row(i).code <= c <= Row(i).ecode then Some(Row(i))
    else Scan(i + 1, form, c, if Row(i).code == 0 then Some(Row(i)) else minor)
  }

  predicate Close(c: int) {
    c == ']' as int || c == '}' as int
  }

  /** The table read state by state: the next state and the moves of the two stacks. */
  ghost function Delta(form: State, c: int): Option<(State, int, int)> {
    match form
    case Null => None
    case Esc => Some((Null, 0, -1))
    case Body =>
      Some((if c == '[' as int then Array else if c == '{' as int then Object
            else if '0' as int <= c <= '9' as int then Number else if c == '"' as int then Str else Other, 0, 0))
    case Colon => if c == ':' as int then Some((Body, 0, 0)) else None
    case Wait =>
      if c == ',' as int then Some((Null, 0, -1)) else if Close(c) then Some((Wait, -1, -1)) else None
    case Array =>
      if c == ']' as int then Some((Wait, -1, 0))
      else
        Some((if c == '[' as int then Array else if c == '{' as int then Object
              else if '0' as int <= c <= '9' as int then Number else if c == '"' as int then Str else Other, 1, 1))
    case Object =>
      if c == '"' as int then Some((Name, 1, 1)) else if c == '}' as int then Some((Wait, -1, 0)) else None
    case Name =>
      if c == '"' as int then Some((Colon, 0, 0)) else if c == '\\' as int then Some((Esc, 0, 1)) else None
    case Str =>
      if c == '"' as int then Some((Wait, -1, 0)) else if c == '\\' as int then Some((Esc, 0, 1)) else None
    case _ =>
      if c == ',' as int then Some((Null, -1, -1)) else if Close(c) then Some((Wait, -2, -1)) else None
  }

  /** The character belongs to the text of the state it leads to. */
  ghost predicate Cross(form: State, c: int) {
    form == Esc ||
    ((form == Body || form == Array) && Delta(form, c).Some? && (Delta(form, c).value.0 == Number || Delta(form, c).value.0 == Other))
  }

  ghost predicate Agrees(t: Option<Transition>, form: State, c: int) {
    if t.None? then Delta(form, c).None?
    else Delta(form, c) == Some((t.value.to, t.value.nstack, t.value.sstack)) && t.value.cross == Cross(form, c)
  }

  /** Rows of other states do not count. */
  lemma {:induction false} Skip(i: nat, j: nat, form: State, c: Code, minor: Option<Transition>)
    requires i <= j <= 28 && forall k: nat :: i <= k < j ==> Row(k).form != form
    ensures Scan(i, form, c, minor) == Scan(j, form, c, minor)
    decreases j - i
  {
    hide Row;
    if i < j {
      Skip(i + 1, j, form, c, minor);
    }
  }

  /** One row of the state. */
  lemma {:induction false} One(i: nat, form: State, c: Code, minor: Option<Transition>)
    requires i < 28 && Row(i).form == form
    ensures Scan(i, form, c, minor) ==
            if Row(i).code <= c <= Row(i).ecode then Some(Row(i))
            else Scan(i + 1, form, c, if Row(i).code == 0 then Some(Row(i)) else minor)
  {
    hide Row;
  }

  /** The five rows with which a value starts. */
  lemma {:induction false} Five(i: nat, form: State, c: Code)
    requires i + 5 <= 28 && forall k: nat :: i <= k < i + 5 ==> Row(k).form == form
    requires forall k: nat :: i <= k < i + 4 ==> Row(k).code != 0
    ensures Scan(i, form, c, None) ==
            if Row(i).code <= c <= Row(i).ecode then Some(Row(i))
            else if Row(i + 1).code <= c <= Row(i + 1).ecode then Some(Row(i + 1))
            else if Row(i + 2).code <= c <= Row(i + 2).ecode then Some(Row(i + 2))
            else if Row(i + 3).code <= c <= Row(i + 3).ecode then Some(Row(i + 3))
            else if Row(i + 4).code <= c <= Row(i + 4).ecode then Some(Row(i + 4))
            else Scan(i + 5, form, c, if Row(i + 4).code == 0 then Some(Row(i + 4)) else None)
  {
    hide Row; hide Scan;
    One(i, form, c, None);
    One(i + 1, form, c, None);
    One(i + 2, form, c, None);
    One(i + 3, form, c, None);
    One(i + 4, form, c, None);
  }

  lemma {:induction false} ScanEnd(form: State, c: Code, minor: Option<Transition>)
    ensures Scan(28, form, c, minor) == minor
  {
  }

  lemma {:induction false} TableNull(form: State, c: Code)
    requires form == Null
    ensures Agrees(Scan(0, form, c, None), form, c)
  {
    hide Scan;
    Skip(0, 28, form, c, None);
    ScanEnd(form, c, None);
  }

  lemma {:induction false} TableEsc(form: State, c: Code)
    requires form == Esc
    ensures Agrees(Scan(0, form, c, None), form, c)
  {
    hide Scan;
    Skip(0, 5, form, c, None);
    One(5, form, c, None);
    Skip(6, 28, form, c, Some(Row(5)));
    ScanEnd(form, c, Some(Row(5)));
  }

  lemma {:induction false} TableColon(form: State, c: Code)
    requires form == Colon
    ensures Agrees(Scan(0, form, c, None), form, c)
  {
    hide Scan;
    Skip(0, 2, form, c, None);
    One(2, form, c, None);
    Skip(3, 28, form, c, None);
    ScanEnd(form, c, None);
  }

  lemma {:induction false} TableName(form: State, c: Code)
    requires form == Name
    ensures Agrees(Scan(0, form, c, None), form, c)
  {
    hide Scan;
    Skip(0, 1, form, c, None);
    One(1, form, c, None);
    Skip(2, 3, form, c, None);
    One(3, form, c, None);
    Skip(4, 28, form, c, None);
    ScanEnd(form, c, None);
  }

  lemma {:induction false} TableStr(form: State, c: Code)
    requires form == Str
    ensures Agrees(Scan(0, form, c, None), form, c)
  {
    hide Scan;
    Skip(0, 4, form, c, None);
    One(4, form, c, None);
    Skip(5, 18, form, c, None);
    One(18, form, c, None);
    Skip(19, 28, form, c, None);
    ScanEnd(form, c, None);
  }

  lemma {:induction false} TableObject(form: State, c: Code)
    requires form == Object
    ensures Agrees(Scan(0, form, c, None), form, c)
  {
    hide Scan;
    One(0, form, c, None);
    Skip(1, 17, form, c, None);
    One(17, form, c, None);
    Skip(18, 28, form, c, None);
    ScanEnd(form, c, None);
  }

  lemma {:induction false} TableBody(form: State, c: Code)
    requires form == Body
    ensures Agrees(Scan(0, form, c, None), form, c)
  {
    hide Scan;
    Skip(0, 6, form, c, None);
    Five(6, form, c);
    Skip(11, 28, form, c, Some(Row(10)));
    ScanEnd(form, c, Some(Row(10)));
  }

  lemma {:induction false} TableArray(form: State, c: Code)
    requires form == Array
    ensures Agrees(Scan(0, form, c, None), form, c)
  {
    hide Scan;
    Skip(0, 11, form, c, None);
    Five(11, form, c);
    One(16, form, c, Some(Row(15)));
    Skip(17, 28, form, c, Some(Row(15)));
    ScanEnd(form, c, Some(Row(15)));
  }

  lemma {:induction false} TableWait(form: State, c: Code)
    requires form == Wait
    ensures Agrees(Scan(0, form, c, None), form, c)
  {
    hide Scan;
    Skip(0, 21, form, c, None);
    One(21, form, c, None);
    Skip(22, 24, form, c, None);
    One(24, form, c, None);
    Skip(25, 27, form, c, None);
    One(27, form, c, None);
    ScanEnd(form, c, None);
  }

  lemma {:induction false} TableNumber(form: State, c: Code)
    requires form == Number
    ensures Agrees(Scan(0, form, c, None), form, c)
  {
    hide Scan;
    Skip(0, 19, form, c, None);
    One(19, form, c, None);
    Skip(20, 22, form, c, None);
    One(22, form, c, None);
    Skip(23, 25, form, c, None);
    One(25, form, c, None);
    Skip(26, 28, form, c, None);
    ScanEnd(form, c, None);
  }

  lemma {:induction false} TableOther(form: State, c: Code)
    requires form == Other
    ensures Agrees(Scan(0, form, c, None), form, c)
  {
    hide Scan;
    Skip(0, 20, form, c, None);
    One(20, form, c, None);
    Skip(21, 23, form, c, None);
    One(23, form, c, None);
    Skip(24, 26, form, c, None);
    One(26, form, c, None);
    Skip(27, 28, form, c, None);
    ScanEnd(form, c, None);
  }

  /** The search through the table is Delta. */
  lemma {:induction false} TableIsDelta(form: State, c: Code)
    ensures Agrees(Scan(0, form, c, None), form, c)
  {
    hide Scan; hide Row; hide Agrees; hide Delta; hide Cross;
    match form {
      case Null => TableNull(form, c);
      case Esc => TableEsc(form, c);
      case Colon => TableColon(form, c);
      case Name => TableName(form, c);
      case Str => TableStr(form, c);
      case Object => TableObject(form, c);
      case Body => TableBody(form, c);
      case Array => TableArray(form, c);
      case Wait => TableWait(form, c);
      case Number => TableNumber(form, c);
      case Other => TableOther(form, c);
    }
  }

  /** The search through the table gives what Delta says. */
  method Search(form: State, c: Code) returns (major: Option<Transition>)
    ensures Agrees(major, form, c)
  {
    hide Row; hide Agrees; hide Delta; hide Cross;
    TableIsDelta(form, c);
    var minor: Option<Transition> := None;
    var count := 0;
    while count < 28
      invariant 0 <= count <= 28 && Scan(0, form, c, None) == Scan(count, form, c, minor)
    {
      var row := Row(count);
      if row.form == form {
        if row.code <= c <= row.ecode {
          return Some(row);
        } else if row.code == 0 {
          minor := Some(row);
        }
      }
      count := count + 1;
    }
    return minor;
  }
}
