/** The must-modify analysis of statements (Statement.cc): which of the names of interest
    a statement assigns whichever way it is taken. */
module MustModify {
  import opened PExprs

  /** The l-values stand for their names, as the analysis compares them by name. A
      statement of another kind is known only by the names its paths assign. */
  datatype Stmt =
    | Assign(lval: string)
    | AssignNB(lval: string)
    | Block(list: seq<Option<Stmt>>)
    | Condit(if_: Option<Stmt>, else_: Option<Stmt>)
    | Other(paths: set<set<string>>)

  /** Per syntactic path, the names assigned on it. */
  function Paths(st: Stmt): set<set<string>>
    decreases st
  {
    match st
    case Assign(x) => {{x}}
    case AssignNB(x) => {{x}}
    case Block(list) => PathsOfList(list)
    case Condit(if_, else_) => PathsOfOpt(if_) + PathsOfOpt(else_)
    case Other(paths) => paths
  }

  function PathsOfOpt(st: Option<Stmt>): set<set<string>>
    decreases st
  {
    if st.None? then {{}} else Paths(st.value)
  }

  function PathsOfList(list: seq<Option<Stmt>>): set<set<string>>
    decreases list
  {
    if list == [] then {{}}
    else Product(PathsOfOpt(list[0]), PathsOfList(list[1..]))
  }

  function Product(a: set<set<string>>, b: set<set<string>>): set<set<string>> {
    set p, q | p in a && q in b :: p + q
  }

  predicate OnEvery(paths: set<set<string>>, x: string) {
    forall p <- paths :: x in p
  }

  /** The names the analysis adds to an empty set. */
  function Must(st: Stmt, depexprs: set<string>): set<string>
    decreases st
  {
    match st
    case Assign(x) => if x in depexprs then {x} else {}
    case AssignNB(x) => if x in depexprs then {x} else {}
    case Block(list) => MustOfList(list, depexprs)
    case Condit(if_, else_) => MustOfOpt(if_, depexprs) * MustOfOpt(else_, depexprs)
    case Other(_) => {}
  }

  function MustOfOpt(st: Option<Stmt>, depexprs: set<string>): set<string>
    decreases st
  {
    if st.None? then {} else Must(st.value, depexprs)
  }

  function MustOfList(list: seq<Option<Stmt>>, depexprs: set<string>): set<string>
    decreases list
  {
    if list == [] then {} else MustOfOpt(list[0], depexprs) + MustOfList(list[1..], depexprs)
  }

  /** The set that the analysis inserts into, passed by reference. */
  class NameSet {
    var names: set<string>

    constructor ()
      ensures names == {}
    {
      names := {};
    }

    method Insert(x: string)
      modifies this
      ensures names == old(names) + {x}
    {
      names := names + {x};
    }
  }

  /** What a statement adds joins the names already there, none of which is lost. */
  method Mustmodify(st: Stmt, vars: NameSet, depexprs: set<string>)
    modifies vars
    ensures vars.names == old(vars.names) + Must(st, depexprs)
    decreases st
  {
    match st
    case Assign(lval) => if lval in depexprs { vars.Insert(lval); }
    case AssignNB(lval) => if lval in depexprs { vars.Insert(lval); }
    case Block(list) =>
      assert list[0..] == list;
      for idx := 0 to |list|
        invariant vars.names + MustOfList(list[idx..], depexprs) == old(vars.names) + Must(st, depexprs)
      {
        assert list[idx..][1..] == list[idx + 1..];
        if list[idx].Some? {
          Mustmodify(list[idx].value, vars, depexprs);
        }
      }
    case Condit(if_, else_) =>
      var ifModified := new NameSet();
      var elseModified := new NameSet();
      if if_.Some? {
        Mustmodify(if_.value, ifModified, depexprs);
      }
      if else_.Some? {
        Mustmodify(else_.value, elseModified, depexprs);
      }
      vars.names := vars.names + ifModified.names * elseModified.names;
    case Other(_) =>
  }

  predicate NoOther(st: Stmt)
    decreases st
  {
    match st
    case Block(list) => forall i | 0 <= i < |list| :: list[i].Some? ==> NoOther(list[i].value)
    case Condit(if_, else_) => (if_.Some? ==> NoOther(if_.value)) && (else_.Some? ==> NoOther(else_.value))
    case Other(_) => false
    case _ => true
  }

  /** A name is added only if it is of interest and assigned on every path; and every
      such name is added when only assignments, blocks and branches occur. */
  lemma {:induction false} MustIsMeetOverPaths(st: Stmt, depexprs: set<string>, x: string)
    ensures x in Must(st, depexprs) ==> x in depexprs && OnEvery(Paths(st), x)
    ensures NoOther(st) ==> (x in Must(st, depexprs) <==> x in depexprs && OnEvery(Paths(st), x))
    decreases st
  {
    match st
    case Assign(y) => assert {y} in Paths(st);
    case AssignNB(y) => assert {y} in Paths(st);
    case Block(list) => MustOfListIsMeet(list, depexprs, x);
    case Condit(if_, else_) =>
      MustOfOptIsMeet(if_, depexprs, x);
      MustOfOptIsMeet(else_, depexprs, x);
    case Other(_) =>
  }

  lemma {:induction false} MustOfOptIsMeet(st: Option<Stmt>, depexprs: set<string>, x: string)
    ensures x in MustOfOpt(st, depexprs) ==> x in depexprs && OnEvery(PathsOfOpt(st), x)
    ensures (st.Some? ==> NoOther(st.value))
        ==> (x in MustOfOpt(st, depexprs) <==> x in depexprs && OnEvery(PathsOfOpt(st), x))
    decreases st
  {
    if st.Some? {
      MustIsMeetOverPaths(st.value, depexprs, x);
    } else {
      assert {} in PathsOfOpt(st);
    }
  }

  lemma {:induction false} MustOfListIsMeet(list: seq<Option<Stmt>>, depexprs: set<string>, x: string)
    ensures x in MustOfList(list, depexprs) ==> x in depexprs && OnEvery(PathsOfList(list), x)
    ensures (forall i | 0 <= i < |list| :: list[i].Some? ==> NoOther(list[i].value))
        ==> (x in MustOfList(list, depexprs) <==> x in depexprs && OnEvery(PathsOfList(list), x))
    decreases list
  {
    if list == [] {
      assert {} in PathsOfList(list);
    } else {
      MustOfOptIsMeet(list[0], depexprs, x);
      MustOfListIsMeet(list[1..], depexprs, x);
      OnEveryProduct(PathsOfOpt(list[0]), PathsOfList(list[1..]), x);
    }
  }

  /** In sequence, a name is on every path when either part has it on every path of its own. */
  lemma OnEveryProduct(a: set<set<string>>, b: set<set<string>>, x: string)
    ensures OnEvery(Product(a, b), x) <==> OnEvery(a, x) || OnEvery(b, x)
  {
    if !OnEvery(a, x) && !OnEvery(b, x) {
      var p :| p in a && x !in p;
      var q :| q in b && x !in q;
      assert p + q in Product(a, b) && x !in p + q;
    }
  }

  /** Another kind of statement contributes nothing, however often it assigns. */
  lemma OtherIsMissed(x: string)
    ensures Must(Other({{x}}), {x}) == {} && OnEvery(Paths(Other({{x}})), x)
  {
  }
}
