/** `set`, `unset` and `export`: NSH variables beside the process environment. */
module NshEnv {
  import opened Common
  import opened NshVars

  const ERROR := -1

  /** The NSH variables, the environment and the exit status `$?`. */
  datatype Store = Store(vars: map<string, string>, env: map<string, string>, fail: bool)

  /** No name is both an NSH variable and an environment variable. */
  ghost predicate Disjoint(s: Store) {
    s.vars.Keys !! s.env.Keys
  }

  /** What `$name` expands to. */
  function Lookup(s: Store, name: string): string {
    if name == "?" then (if s.fail then "1" else "0")
    else if name in s.vars then s.vars[name]
    else if name in s.env then s.env[name]
    else ""
  }

  // ----- the process environment -----

  /** The environment after `setenv` with overwriting. An old binding is dropped
      first, so nothing is left if memory runs out; an empty value only drops it. */
  function SetEnv(env: map<string, string>, name: string, value: string, memory: bool): map<string, string> {
    if value != "" && memory then env[name := value] else env - {name}
  }

  /** Whether `unsetenv` succeeds: the rest of the environment is reallocated, unless
      there was nothing to drop or nothing is left. */
  predicate UnsetEnvOk(env: map<string, string>, name: string, memory: bool) {
    name !in env || env - {name} == map[] || memory
  }

  predicate SetEnvOk(env: map<string, string>, name: string, value: string, memory: bool) {
    if value == "" then UnsetEnvOk(env, name, memory) else memory
  }

  /** A name that is already in the environment is set there. */
  function SetSpec(s: Store, name: string, value: string, memory: bool): Store {
    if name in s.env then s.(env := SetEnv(s.env, name, value, memory))
    else if memory then s.(vars := s.vars[name := value])
    else s.(vars := s.vars - {name})
  }

  function UnsetSpec(s: Store, name: string): Store {
    s.(vars := s.vars - {name}, env := s.env - {name})
  }

  /** The value that `export` hands to the environment: the one given, or else the
      variable's, or else the empty string. */
  function Exported(s: Store, name: string, given: Option<string>): string {
    if given.Some? then given.value else if name in s.vars then s.vars[name] else ""
  }

  function ExportSpec(s: Store, name: string, given: Option<string>, memory: bool): Store {
    var value := Exported(s, name, given);
    s.(vars := if SetEnvOk(s.env, name, value, memory) then s.vars - {name} else s.vars,
       env := SetEnv(s.env, name, value, memory))
  }

  // ----- every sequence of commands -----

  /** `memory` is whether the buffer that is to hold the value can grow, or for `unset`
      whether the environment can be reallocated smaller; `shrink` is whether the
      variable buffer can. */
  datatype Op =
    | SetOp(name: string, value: string, memory: bool)
    | UnsetOp(name: string, shrink: bool, memory: bool)
    | ExportOp(name: string, given: Option<string>, shrink: bool, memory: bool)

  function Apply(s: Store, op: Op): Store {
    match op
    case SetOp(name, value, memory) => SetSpec(s, name, value, memory)
    case UnsetOp(name, _, _) => UnsetSpec(s, name)
    case ExportOp(name, given, _, memory) => ExportSpec(s, name, given, memory)
  }

  function ApplyAll(s: Store, ops: seq<Op>): Store
    decreases ops
  {
    if ops == [] then s else ApplyAll(Apply(s, ops[0]), ops[1..])
  }

  lemma {:induction false} StaysDisjoint(s: Store, ops: seq<Op>)
    requires Disjoint(s)
    ensures Disjoint(ApplyAll(s, ops))
    decreases ops
  {
    if ops != [] {
      assert Disjoint(Apply(s, ops[0]));
      StaysDisjoint(Apply(s, ops[0]), ops[1..]);
    }
  }

  /** What a name expands to: the status for `?`, and otherwise the NSH variable, or else
      the environment variable, or else nothing. */
  lemma LookupIs(s: Store, name: string)
    ensures name == "?" ==> Lookup(s, name) == if s.fail then "1" else "0"
    ensures name != "?" && name in s.vars ==> Lookup(s, name) == s.vars[name]
    ensures name != "?" && name !in s.vars && name in s.env ==> Lookup(s, name) == s.env[name]
    ensures name != "?" && name !in s.vars && name !in s.env ==> Lookup(s, name) == ""
  {
  }

  /** A command on one name never changes what another name expands to, nor the status. Its
      own name expands to the value set or exported, and to nothing after an `unset`. A
      `set` that runs out of memory loses the name, and so does an `export` unless it is
      an NSH variable, which then stays. */
  lemma OnlyItsName(s: Store, op: Op, other: string)
    requires Disjoint(s)
    ensures other != op.name || other == "?" ==> Lookup(Apply(s, op), other) == Lookup(s, other)
    ensures op.SetOp? && op.name != "?" ==> Lookup(Apply(s, op), op.name) == if op.memory then op.value else ""
    ensures op.UnsetOp? && op.name != "?" ==> Lookup(Apply(s, op), op.name) == ""
    ensures op.ExportOp? && op.name != "?" && op.memory ==>
              Lookup(Apply(s, op), op.name) == if op.given.Some? then op.given.value
                                               else if op.name in s.vars then s.vars[op.name] else ""
    ensures op.ExportOp? && op.name != "?" && !op.memory ==>
              Lookup(Apply(s, op), op.name) == if op.given != Some("") && op.name in s.vars then s.vars[op.name] else ""
  {
  }

  /** Where a name is stored: a set stays in the environment if the name was there, an
      export goes there if its value is not empty, and an unset name is in neither. */
  lemma WhereStored(s: Store, op: Op)
    requires Disjoint(s)
    ensures var s' := Apply(s, op);
            && s'.fail == s.fail
            && (op.SetOp? && op.memory && op.value != "" ==> (op.name in s'.env <==> op.name in s.env))
            && (op.ExportOp? && op.memory ==>
                  && op.name !in s'.vars
                  && (op.name in s'.env <==> if op.given.Some? then op.given.value != ""
                                             else op.name in s.vars && s.vars[op.name] != ""))
            && (op.UnsetOp? ==> op.name !in s'.vars && op.name !in s'.env)
  {
  }

  /** `export` without a value keeps every expansion, whether or not memory runs out,
      if and only if it names an NSH variable or the name expands to nothing anyway;
      an environment variable that is exported again is dropped. */
  lemma ExportKeepsLookupsIff(s: Store, name: string, memory: bool)
    requires Disjoint(s)
    ensures (forall n :: Lookup(ExportSpec(s, name, None, memory), n) == Lookup(s, n))
            <==> name == "?" || name in s.vars || Lookup(s, name) == ""
  {
    if name != "?" && name !in s.vars && Lookup(s, name) != "" {
      assert Lookup(ExportSpec(s, name, None, memory), name) == "";
    }
  }

  // ----- the two stores as they are: lists of entries -----

  /** The process environment is packed in the same way as the NSH variables. */
  datatype Lists = Lists(vars: seq<Var>, env: seq<Var>, fail: bool)

  function Abstract(l: Lists): Store {
    Store(ToMap(l.vars), ToMap(l.env), l.fail)
  }

  function ListLookup(l: Lists, name: string): string {
    if name == "?" then (if l.fail then "1" else "0")
    else if Get(l.vars, name).Some? then Get(l.vars, name).value
    else if Get(l.env, name).Some? then Get(l.env, name).value
    else ""
  }

  function ListSetEnv(env: seq<Var>, name: string, value: string, memory: bool): seq<Var> {
    if value == "" then Unset(env, name) else Set(env, name, value, memory)
  }

  predicate ListUnsetEnvOk(env: seq<Var>, name: string, memory: bool) {
    Get(env, name) == None || Unset(env, name) == [] || memory
  }

  predicate ListSetEnvOk(env: seq<Var>, name: string, value: string, memory: bool) {
    if value == "" then ListUnsetEnvOk(env, name, memory) else memory
  }

  function ListExported(l: Lists, name: string, given: Option<string>): string {
    if given.Some? then given.value else if Get(l.vars, name).Some? then Get(l.vars, name).value else ""
  }

  function ListApply(l: Lists, op: Op): Lists {
    match op
    case SetOp(name, value, memory) =>
      if Get(l.env, name) == None then l.(vars := Set(l.vars, name, value, memory))
      else l.(env := ListSetEnv(l.env, name, value, memory))
    case UnsetOp(name, _, _) => l.(vars := Unset(l.vars, name), env := Unset(l.env, name))
    case ExportOp(name, given, _, memory) =>
      var value := ListExported(l, name, given);
      l.(vars := if ListSetEnvOk(l.env, name, value, memory) then Unset(l.vars, name) else l.vars,
         env := ListSetEnv(l.env, name, value, memory))
  }

  function ListApplyAll(l: Lists, ops: seq<Op>): Lists
    decreases |ops|
  {
    if ops == [] then l else ListApplyAll(ListApply(l, ops[0]), ops[1..])
  }

  ghost predicate DistinctLists(l: Lists) {
    Distinct(l.vars) && Distinct(l.env)
  }

  /** The strings of a command are C strings, and the name has no `=` in it. */
  predicate Plain(op: Op) {
    NUL !in op.name && EQ !in op.name && Strings(op)
  }

  lemma ListLookupIs(l: Lists, name: string)
    requires DistinctLists(l) && EQ !in name
    ensures ListLookup(l, name) == Lookup(Abstract(l), name)
  {
    hide Get, ToMap;
    GetIsLookup(l.vars, name);
    GetIsLookup(l.env, name);
  }

  lemma {:induction false} EmptyMap(vs: seq<Var>)
    ensures ToMap(vs) == map[] <==> vs == []
  {
    if vs != [] {
      assert vs[|vs| - 1].name in ToMap(vs);
    }
  }

  lemma ListSetEnvIs(env: seq<Var>, name: string, value: string, memory: bool)
    requires Distinct(env) && Var(name, value).Valid()
    ensures Distinct(ListSetEnv(env, name, value, memory))
    ensures ToMap(ListSetEnv(env, name, value, memory)) == SetEnv(ToMap(env), name, value, memory)
    ensures ListUnsetEnvOk(env, name, memory) == UnsetEnvOk(ToMap(env), name, memory)
    ensures ListSetEnvOk(env, name, value, memory) == SetEnvOk(ToMap(env), name, value, memory)
  {
    hide Get, ToMap, Set, Unset;
    GetIsLookup(env, name);
    SetIsUpdate(env, name, value, memory);
    UnsetIsRemoval(env, name);
    EmptyMap(Unset(env, name));
  }

  /** On names without `=` the lists are the maps that they stand for. */
  lemma ListApplyIs(l: Lists, op: Op)
    requires DistinctLists(l) && Plain(op)
    ensures DistinctLists(ListApply(l, op)) && Abstract(ListApply(l, op)) == Apply(Abstract(l), op)
  {
    hide Get, ToMap, Set, Unset, ListSetEnv, SetEnv, ListSetEnvOk, SetEnvOk;
    GetIsLookup(l.vars, op.name);
    GetIsLookup(l.env, op.name);
    UnsetIsRemoval(l.vars, op.name);
    UnsetIsRemoval(l.env, op.name);
    match op
    case SetOp(name, value, memory) =>
      SetIsUpdate(l.vars, name, value, memory);
      ListSetEnvIs(l.env, name, value, memory);
    case UnsetOp(_, _, _) =>
    case ExportOp(name, given, _, memory) =>
      ExportedIsString(l, name, given);
      ListSetEnvIs(l.env, name, ListExported(l, name, given), memory);
  }

  lemma ExportedIsString(l: Lists, name: string, given: Option<string>)
    requires AllValid(l.vars) && (given.Some? ==> NUL !in given.value)
    ensures NUL !in ListExported(l, name, given)
  {
  }

  lemma {:induction false} ListApplyAllIs(l: Lists, ops: seq<Op>)
    requires DistinctLists(l) && forall i :: 0 <= i < |ops| ==> Plain(ops[i])
    ensures DistinctLists(ListApplyAll(l, ops)) && Abstract(ListApplyAll(l, ops)) == ApplyAll(Abstract(l), ops)
    decreases |ops|
  {
    hide Abstract, ListApply, Apply, DistinctLists, Plain;
    if ops != [] {
      ListApplyIs(l, ops[0]);
      ListApplyAllIs(ListApply(l, ops[0]), ops[1..]);
    }
  }

  /** Setting a name never makes it both an NSH variable and an environment variable, if
      and only if there is no `=` in it. */
  lemma SetKeepsDisjointIff(name: string)
    requires NUL !in name
    ensures (forall l, value, memory :: DistinctLists(l) && Disjoint(Abstract(l)) && NUL !in value
                                        && Comparable(l.vars, name) && Comparable(l.env, name)
                                    ==> Disjoint(Abstract(ListApply(l, SetOp(name, value, memory)))))
            <==> EQ !in name
  {
    hide ToMap, Get, Set, Unset;
    if EQ !in name {
      forall l, value, memory | DistinctLists(l) && Disjoint(Abstract(l)) && NUL !in value
        ensures Disjoint(Abstract(ListApply(l, SetOp(name, value, memory))))
      {
        ListApplyIs(l, SetOp(name, value, memory));
      }
    } else {
      var v := BlockingEntry(name);
      SetBesides(name, v);
    }
  }

  /** An environment entry of the same variable that the comparison does not find. */
  lemma BlockingEntry(name: string) returns (v: Var)
    requires NUL !in name && EQ in name
    ensures v.Valid() && !Matches(v, name) && v.Pair() != name && v.name == Entry(name, []).name
  {
    var e := Entry(name, []);
    EntryIs(name, []);
    v := Var(e.name, name[|e.name| + 1..] + ['x']);
    assert v.Pair() == name + ['x'] by {
      assert name == name[..|e.name|] + [EQ] + name[|e.name| + 1..];
    }
    assert (name + [EQ])[|name|] != v.Pair()[|name|];
  }

  lemma SetBesides(name: string, v: Var)
    requires NUL !in name && v.Valid() && !Matches(v, name) && v.Pair() != name && v.name == Entry(name, []).name
    ensures var l := Lists([], [v], false);
            DistinctLists(l) && Comparable(l.vars, name) && Comparable(l.env, name) && Disjoint(Abstract(l)) && !Disjoint(Abstract(ListApply(l, SetOp(name, [], true))))
  {
    var e := Entry(name, []);
    assert Set([], name, [], true) == [e];
    ToMapOne(e);
    ToMapOne(v);
    assert v.name in ToMap([e]).Keys && v.name in ToMap([v]).Keys;
  }

  // ----- the commands -----

  class Session {
    const console: Console
    var env: seq<Var>
    var fail: bool

    constructor (environ: seq<Var>)
      requires AllValid(environ)
      ensures Valid() && fresh(console) && console.varp == null && State() == Lists([], environ, false)
    {
      console := new Console();
      env, fail := environ, false;
    }

    ghost predicate Valid()
      reads this, console, console.varp
    {
      console.Valid() && AllValid(env)
    }

    ghost function State(): Lists
      reads this, console
    {
      Lists(console.vars, env, fail)
    }

    /** What the stores mean if no name is in one of them twice. */
    ghost function View(): Store
      reads this, console
    {
      Abstract(State())
    }

    /** The name is a C string and can be compared with every entry. */
    ghost predicate CanName(name: string)
      reads this, console
    {
      NUL !in name && Comparable(console.vars, name) && Comparable(env, name)
    }

    /** `setenv` with overwriting. */
    method SetEnvironment(name: string, value: string, memory: bool) returns (ret: int)
      requires AllValid(env) && NUL !in name && NUL !in value
      modifies `env
      ensures AllValid(env) && env == ListSetEnv(old(env), name, value, memory)
      ensures ret == if memory || (value == "" && (Get(old(env), name) == None || env == [])) then OK else -1
    {
      hide Get, Entry, FirstMatch;
      if value == "" {
        ret := UnsetEnvironment(name, memory);
        return;
      }
      EntryIs(name, value);
      UnsetKeepsValid(env, name);
      env := Unset(env, name);
      if memory {
        env := env + [Entry(name, value)];
      } else {
        assert env + [] == env;
      }
      ret := if memory then OK else ERROR;
    }

    /** `unsetenv`: the name is dropped before the buffer is reallocated. */
    method UnsetEnvironment(name: string, memory: bool) returns (ret: int)
      requires AllValid(env)
      modifies `env
      ensures AllValid(env) && env == Unset(old(env), name)
      ensures ret == if memory || Get(old(env), name) == None || env == [] then OK else -1
    {
      hide FirstMatch;
      ret := OK;
      UnsetKeepsValid(env, name);
      if Get(env, name).Some? {
        env := Unset(env, name);
        if env != [] && !memory {
          ret := ERROR;
        }
      }
    }

    method CmdSet(name: string, value: string, memory: bool) returns (ret: int)
      requires Valid() && CanName(name) && NUL !in value
      modifies this, console, console.varp
      ensures Valid() && (console.varp == null || console.varp == old(console.varp) || fresh(console.varp))
      ensures State() == ListApply(old(State()), SetOp(name, value, memory))
      ensures ret == if memory || (Get(old(env), name).Some? && value == "" && env == []) then OK
                     else if Get(old(env), name).Some? then -1 else -12
    {
      hide Get, Set, Unset, AllValid, ListSetEnv, ListSetEnvOk;
      if Get(env, name) == None {
        ret := console.SetVar(name, value, memory);
      } else {
        ret := SetEnvironment(name, value, memory);
      }
    }

    method CmdUnset(name: string, shrink: bool, memory: bool) returns (ret: int)
      requires Valid() && CanName(name)
      modifies this, console, console.varp
      ensures Valid() && (console.varp == null || console.varp == old(console.varp) || fresh(console.varp))
      ensures State() == ListApply(old(State()), UnsetOp(name, shrink, memory))
      ensures ret == if (!shrink && Get(old(console.vars), name).Some? && console.vars != [])
                        || (!memory && Get(old(env), name).Some? && env != []) then -1 else OK
    {
      hide Get, Set, Unset, AllValid;
      ret := OK;
      var status := console.UnsetVar(name, shrink);
      if status < 0 {
        ret := ERROR;
      }
      status := UnsetEnvironment(name, memory);
      if status < 0 {
        ret := ERROR;
      }
    }

    method CmdExport(name: string, given: Option<string>, shrink: bool, memory: bool) returns (ret: int)
      requires Valid() && CanName(name) && (given.Some? ==> NUL !in given.value)
      modifies this, console, console.varp
      ensures Valid() && (console.varp == null || console.varp == old(console.varp) || fresh(console.varp))
      ensures State() == ListApply(old(State()), ExportOp(name, given, shrink, memory))
      ensures var value := ListExported(old(State()), name, given);
              var stored := memory || (value == "" && (Get(old(env), name) == None || env == []));
              ret == if !stored || (!shrink && Get(old(console.vars), name).Some? && console.vars != []) then -1 else OK
    {
      hide Get, Set, Unset;
      ExportedIsString(State(), name, given);
      ret := OK;
      var value := "";
      if given.Some? {
        value := given.value;
      } else {
        var tmp := console.GetVar(name);
        if tmp.Some? {
          value := tmp.value;
        }
      }
      var status := SetEnvironment(name, value, memory);
      if status < 0 {
        ret := ERROR;
      } else {
        status := console.UnsetVar(name, shrink);
        if status < 0 {
          ret := ERROR;
        }
      }
    }

    method EnvExpand(name: string) returns (value: string)
      requires Valid() && CanName(name)
      ensures value == ListLookup(State(), name)
    {
      hide Get;
      if name == "?" {
        return if fail then "1" else "0";
      }
      var v := console.GetVar(name);
      if v.Some? {
        return v.value;
      }
      value := if Get(env, name).Some? then Get(env, name).value else "";
    }

    method Run(op: Op)
      requires Valid() && CanName(op.name) && Strings(op)
      modifies this, console, console.varp
      ensures Valid() && (console.varp == null || console.varp == old(console.varp) || fresh(console.varp))
      ensures State() == ListApply(old(State()), op)
    {
      hide ListApply, Valid, ListSetEnvOk, ListUnsetEnvOk;
      match op
      case SetOp(name, value, memory) =>
        var _ := CmdSet(name, value, memory);
      case UnsetOp(name, shrink, memory) =>
        var _ := CmdUnset(name, shrink, memory);
      case ExportOp(name, given, shrink, memory) =>
        var _ := CmdExport(name, given, shrink, memory);
    }

    /** Any sequence of commands on names without `=` acts on the two maps as specified,
        and keeps them disjoint if they are. */
    method RunAll(ops: seq<Op>)
      requires Valid() && DistinctLists(State()) && forall i :: 0 <= i < |ops| ==> Plain(ops[i])
      modifies this, console, console.varp
      ensures Valid() && DistinctLists(State())
      ensures console.varp == null || console.varp == old(console.varp) || fresh(console.varp)
      ensures View() == ApplyAll(old(View()), ops) && (old(Disjoint(View())) ==> Disjoint(View()))
    {
      hide ListApply, Apply, Abstract, DistinctLists, Disjoint;
      if Disjoint(View()) {
        StaysDisjoint(View(), ops);
      }
      for n := 0 to |ops|
        invariant Valid() && DistinctLists(State()) && ApplyAll(old(View()), ops) == ApplyAll(View(), ops[n..])
        invariant console.varp == null || console.varp == old(console.varp) || fresh(console.varp)
      {
        assert ops[n..][0] == ops[n] && ops[n..][1..] == ops[n + 1..];
        PlainIsComparable(console.vars, ops[n].name);
        PlainIsComparable(env, ops[n].name);
        ListApplyIs(State(), ops[n]);
        Run(ops[n]);
      }
    }
  }

  predicate Strings(op: Op) {
    (op.SetOp? ==> NUL !in op.value) && (op.ExportOp? && op.given.Some? ==> NUL !in op.given.value)
  }

  lemma UnsetKeepsValid(vs: seq<Var>, name: string)
    requires AllValid(vs)
    ensures AllValid(Unset(vs, name))
  {
  }
}
