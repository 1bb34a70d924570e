/** The NSH variable store: `name=value` strings packed one after another in one
    allocated buffer, which behaves as a finite map. */
module NshVars {
  import opened Common

  const EQ := '='
  const OK := 0
  const ENOMEM := 12

  datatype Var = Var(name: string, value: string)
  {
    predicate Valid() {
      NUL !in name && EQ !in name && NUL !in value
    }

    function Pair(): string {
      name + [EQ] + value
    }

    function Line(): string {
      Pair() + [NUL]
    }
  }

  /** The packed buffer that holds these variables. */
  function Encode(vs: seq<Var>): string {
    if vs == [] then [] else vs[0].Line() + Encode(vs[1..])
  }

  ghost predicate AllValid(vs: seq<Var>) {
    forall i :: 0 <= i < |vs| ==> vs[i].Valid()
  }

  ghost predicate Distinct(vs: seq<Var>) {
    && AllValid(vs)
    && (forall i, j :: 0 <= i < j < |vs| ==> vs[i].name != vs[j].name)
  }

  /** The map that these variables stand for. */
  function ToMap(vs: seq<Var>): map<string, string> {
    if vs == [] then map[] else ToMap(vs[..|vs| - 1])[vs[|vs| - 1].name := vs[|vs| - 1].value]
  }

  function RemoveAt(vs: seq<Var>, k: nat): seq<Var>
    requires k < |vs|
  {
    vs[..k] + vs[k + 1..]
  }

  // ----- the encoding -----

  lemma {:induction false} EncodeConcat(a: seq<Var>, b: seq<Var>)
    ensures Encode(a + b) == Encode(a) + Encode(b)
  {
    if a == [] {
      assert a + b == b;
    } else {
      assert (a + b)[1..] == a[1..] + b;
      EncodeConcat(a[1..], b);
    }
  }

  lemma EncodeOne(v: Var)
    ensures Encode([v]) == v.Line()
  {
    assert Encode([v]) == v.Line() + Encode([]);
  }

  lemma EncodeTake(vs: seq<Var>, k: nat)
    requires k < |vs|
    ensures Encode(vs[..k + 1]) == Encode(vs[..k]) + vs[k].Line()
  {
    assert vs[..k + 1] == vs[..k] + [vs[k]];
    EncodeConcat(vs[..k], [vs[k]]);
    EncodeOne(vs[k]);
  }

  lemma EncodeAt(vs: seq<Var>, k: nat)
    requires k <= |vs|
    ensures Encode(vs) == Encode(vs[..k]) + Encode(vs[k..])
  {
    assert vs == vs[..k] + vs[k..];
    EncodeConcat(vs[..k], vs[k..]);
  }

  lemma {:induction false} EncodeFirst(vs: seq<Var>, i: nat)
    requires Distinct(vs) && vs != [] && i <= |vs[0].Pair()|
    ensures i < |Encode(vs)| && Encode(vs)[i] == vs[0].Line()[i]
    ensures Encode(vs)[i] == NUL <==> i == |vs[0].Pair()|
    ensures i <= |vs[0].name| ==> (Encode(vs)[i] == EQ <==> i == |vs[0].name|)
  {
    var v := vs[0];
    assert v.Valid();
    assert v.Line()[i] == if i < |v.name| then v.name[i] else if i == |v.name| then EQ
                          else if i < |v.Pair()| then v.value[i - |v.name| - 1] else NUL;
  }

  /** The buffer determines its variables: no two lists of them share one. */
  lemma {:induction false} EncodeInjective(vs: seq<Var>, ws: seq<Var>)
    requires Distinct(vs) && Distinct(ws) && Encode(vs) == Encode(ws)
    ensures vs == ws
  {
    if vs != [] && ws != [] {
      var v, w := vs[0], ws[0];
      EncodeFirst(vs, Min(|v.Pair()|, |w.Pair()|));
      EncodeFirst(ws, Min(|v.Pair()|, |w.Pair()|));
      EncodeFirst(vs, Min(|v.name|, |w.name|));
      EncodeFirst(ws, Min(|v.name|, |w.name|));
      assert v.Line() == Encode(vs)[..|v.Line()|] == w.Line();
      assert v.name == v.Line()[..|v.name|] && w.name == w.Line()[..|v.name|];
      assert v.value == v.Line()[|v.name| + 1..|v.Pair()|] && w.value == w.Line()[|v.name| + 1..|v.Pair()|];
      assert Encode(vs[1..]) == Encode(vs)[|v.Line()|..] && Encode(ws[1..]) == Encode(ws)[|v.Line()|..];
      EncodeInjective(vs[1..], ws[1..]);
      assert vs == [v] + vs[1..] && ws == [w] + ws[1..];
    }
  }

  // ----- the map -----

  lemma {:induction false} ToMapConcat(a: seq<Var>, b: seq<Var>)
    ensures ToMap(a + b) == ToMap(a) + ToMap(b)
  {
    if b == [] {
      assert a + b == a;
    } else {
      assert (a + b)[..|a + b| - 1] == a + b[..|b| - 1];
      ToMapConcat(a, b[..|b| - 1]);
    }
  }

  ghost predicate Names(vs: seq<Var>, name: string) {
    exists i :: 0 <= i < |vs| && vs[i].name == name
  }

  lemma NamesNext(vs: seq<Var>, k: nat, name: string)
    requires k < |vs|
    ensures Names(vs[..k + 1], name) <==> Names(vs[..k], name) || vs[k].name == name
  {
    assert vs[..k + 1][k] == vs[k];
    assert forall i :: 0 <= i < k ==> vs[..k + 1][i] == vs[..k][i];
  }

  lemma {:induction false} ToMapKeys(vs: seq<Var>, name: string)
    ensures name in ToMap(vs) <==> Names(vs, name)
  {
    if vs != [] {
      var init := vs[..|vs| - 1];
      ToMapKeys(init, name);
      if name == vs[|vs| - 1].name {
        assert vs[|vs| - 1].name == name;
      } else if Names(init, name) {
        var i :| 0 <= i < |init| && init[i].name == name;
        assert vs[i].name == name;
      }
    }
  }

  lemma ToMapOne(v: Var)
    ensures ToMap([v]) == map[v.name := v.value]
  {
    assert [v][..0] == [];
  }

  lemma RemoveAtKeepsDistinct(vs: seq<Var>, k: nat)
    requires Distinct(vs) && k < |vs|
    ensures Distinct(RemoveAt(vs, k)) && !Names(RemoveAt(vs, k), vs[k].name)
  {
  }

  /** The map is put together from the entries before `k`, entry `k` and those after. */
  lemma ToMapSplit(vs: seq<Var>, k: nat)
    requires k < |vs|
    ensures ToMap(vs) == ToMap(vs[..k]) + map[vs[k].name := vs[k].value] + ToMap(vs[k + 1..])
    ensures ToMap(RemoveAt(vs, k)) == ToMap(vs[..k]) + ToMap(vs[k + 1..])
  {
    hide ToMap;
    var a, b, v := vs[..k], vs[k + 1..], vs[k];
    assert vs == a + [v] + b;
    ToMapConcat(a + [v], b);
    ToMapConcat(a, [v]);
    ToMapConcat(a, b);
    ToMapOne(v);
  }

  /** Entry `k` is the binding of its name. */
  lemma EntryIsBinding(vs: seq<Var>, k: nat)
    requires Distinct(vs) && k < |vs|
    ensures vs[k].name in ToMap(vs) && ToMap(vs)[vs[k].name] == vs[k].value
  {
    hide ToMap;
    ToMapSplit(vs, k);
    ToMapKeys(vs[k + 1..], vs[k].name);
  }

  /** Removing entry `k` unbinds just its name. */
  lemma RemoveAtIsRemoval(vs: seq<Var>, k: nat)
    requires Distinct(vs) && k < |vs|
    ensures ToMap(RemoveAt(vs, k)) == ToMap(vs) - {vs[k].name}
  {
    hide ToMap, RemoveAt;
    ToMapSplit(vs, k);
    ToMapKeys(vs[..k], vs[k].name);
    ToMapKeys(vs[k + 1..], vs[k].name);
  }

  lemma AppendIsUpdate(vs: seq<Var>, v: Var)
    requires Distinct(vs) && v.Valid() && !Names(vs, v.name)
    ensures Distinct(vs + [v]) && ToMap(vs + [v]) == ToMap(vs)[v.name := v.value]
  {
    assert (vs + [v])[..|vs|] == vs;
  }

  // ----- names -----

  /** Where the first `=` is, or the length. */
  function FirstEq(s: string): (i: nat)
    ensures i <= |s| && EQ !in s[..i] && (i < |s| ==> s[i] == EQ)
  {
    if s == [] || s[0] == EQ then 0 else 1 + FirstEq(s[1..])
  }

  /** The entry that the string `name=value` is: its name ends at the first `=`. */
  function Entry(name: string, value: string): Var {
    var i := FirstEq(name);
    if i == |name| then Var(name, value) else Var(name[..i], name[i + 1..] + [EQ] + value)
  }

  lemma EntryIs(name: string, value: string)
    ensures Entry(name, value).Pair() == name + [EQ] + value
    ensures NUL !in name && NUL !in value ==> Entry(name, value).Valid()
    ensures EQ !in name ==> Entry(name, value) == Var(name, value)
  {
    var i := FirstEq(name);
    if i < |name| {
      assert name == name[..i] + [EQ] + name[i + 1..];
    }
  }

  /** The comparison of names takes this entry for one of `name`. */
  predicate Matches(v: Var, name: string) {
    name + [EQ] <= v.Pair()
  }

  lemma MatchesIs(v: Var, name: string)
    requires v.Valid() && EQ !in name
    ensures Matches(v, name) <==> v.name == name
  {
    if Matches(v, name) {
      assert v.Pair()[|name|] == EQ && v.Pair()[|v.name|] == EQ;
      assert v.Pair()[..|name|] == name;
      assert v.Pair()[..|v.name|] == v.name;
    }
  }

  /** The first entry that is taken for one of `name`, or the number of entries. */
  function FirstMatch(vs: seq<Var>, name: string): (k: nat)
    ensures k <= |vs| && (k < |vs| ==> Matches(vs[k], name))
    ensures forall i :: 0 <= i < k ==> !Matches(vs[i], name)
  {
    if vs == [] || Matches(vs[0], name) then 0 else 1 + FirstMatch(vs[1..], name)
  }

  /** Comparing a name with an entry comes to an end. */
  ghost predicate Comparable(vs: seq<Var>, name: string) {
    forall i :: 0 <= i < |vs| ==> vs[i].Pair() != name
  }

  /** The two strings differ somewhere up to their ends if and only if they are not the
      same string. */
  lemma ComparisonEndsIff(name: string, pair: string)
    requires NUL !in name && NUL !in pair
    ensures (exists i :: 0 <= i <= |name| && i <= |pair| && CharAt(name, i) != CharAt(pair, i)) <==> name != pair
  {
    if name != pair && forall i :: 0 <= i <= |name| && i <= |pair| ==> CharAt(name, i) == CharAt(pair, i) {
      var n := Min(|name|, |pair|);
      assert CharAt(name, n) == CharAt(pair, n);
      assert |name| == |pair|;
      assert forall i :: 0 <= i < n ==> CharAt(name, i) == name[i] && CharAt(pair, i) == pair[i];
    }
  }

  lemma PlainIsComparable(vs: seq<Var>, name: string)
    requires EQ !in name
    ensures Comparable(vs, name)
  {
    forall i | 0 <= i < |vs|
      ensures vs[i].Pair() != name
    {
      assert vs[i].Pair()[|vs[i].name|] == EQ;
    }
  }

  // ----- what the operations do to the list of entries -----

  function Get(vs: seq<Var>, name: string): Option<string> {
    var k := FirstMatch(vs, name);
    if k < |vs| then Some(vs[k].value) else None
  }

  function Unset(vs: seq<Var>, name: string): seq<Var> {
    var k := FirstMatch(vs, name);
    if k < |vs| then RemoveAt(vs, k) else vs
  }

  function Set(vs: seq<Var>, name: string, value: string, memory: bool): seq<Var> {
    Unset(vs, name) + if memory then [Entry(name, value)] else []
  }

  lemma FirstMatchIs(vs: seq<Var>, name: string)
    requires AllValid(vs) && EQ !in name
    ensures var k := FirstMatch(vs, name); if k < |vs| then vs[k].name == name else !Names(vs, name)
  {
    forall i | 0 <= i < |vs|
      ensures Matches(vs[i], name) <==> vs[i].name == name
    {
      MatchesIs(vs[i], name);
    }
  }

  /** For a name without `=` the operations are those of a map. */
  lemma GetIsLookup(vs: seq<Var>, name: string)
    requires Distinct(vs) && EQ !in name
    ensures Get(vs, name) == if name in ToMap(vs) then Some(ToMap(vs)[name]) else None
  {
    hide ToMap, FirstMatch;
    FirstMatchIs(vs, name);
    ToMapKeys(vs, name);
    if FirstMatch(vs, name) < |vs| {
      EntryIsBinding(vs, FirstMatch(vs, name));
    }
  }

  lemma UnsetIsRemoval(vs: seq<Var>, name: string)
    requires Distinct(vs) && EQ !in name
    ensures Distinct(Unset(vs, name)) && !Names(Unset(vs, name), name)
    ensures ToMap(Unset(vs, name)) == ToMap(vs) - {name}
  {
    hide ToMap, FirstMatch, RemoveAt;
    FirstMatchIs(vs, name);
    var k := FirstMatch(vs, name);
    if k < |vs| {
      RemoveAtIsRemoval(vs, k);
      RemoveAtKeepsDistinct(vs, k);
    } else {
      ToMapKeys(vs, name);
    }
  }

  lemma SetIsUpdate(vs: seq<Var>, name: string, value: string, memory: bool)
    requires Distinct(vs) && Var(name, value).Valid()
    ensures Distinct(Set(vs, name, value, memory))
    ensures ToMap(Set(vs, name, value, memory)) == if memory then ToMap(vs)[name := value] else ToMap(vs) - {name}
  {
    hide ToMap, Unset;
    UnsetIsRemoval(vs, name);
    EntryIs(name, value);
    var rest := Unset(vs, name);
    if memory {
      AppendIsUpdate(rest, Var(name, value));
    } else {
      assert rest + [] == rest;
    }
  }

  // ----- every sequence of operations -----

  datatype VarOp =
    | VarSet(name: string, value: string, memory: bool)
    | VarUnset(name: string, memory: bool)
    | VarGet(name: string)

  function Do(vs: seq<Var>, op: VarOp): seq<Var> {
    match op
    case VarSet(name, value, memory) => Set(vs, name, value, memory)
    case VarUnset(name, _) => Unset(vs, name)
    case VarGet(_) => vs
  }

  function After(vs: seq<Var>, ops: seq<VarOp>): seq<Var>
    decreases |ops|
  {
    if ops == [] then vs else After(Do(vs, ops[0]), ops[1..])
  }

  /** What the lookups among these operations answer. */
  function Answers(vs: seq<Var>, ops: seq<VarOp>): seq<Option<string>>
    decreases |ops|
  {
    if ops == [] then [] else AnswerOf(vs, ops[0]) + Answers(Do(vs, ops[0]), ops[1..])
  }

  /** The strings are C strings, and the name can be compared with every entry. */
  ghost predicate ValidOp(vs: seq<Var>, op: VarOp) {
    NUL !in op.name && (op.VarSet? ==> NUL !in op.value) && Comparable(vs, op.name)
  }

  /** Every operation is valid when its turn comes. */
  ghost predicate ValidOps(vs: seq<Var>, ops: seq<VarOp>)
    decreases |ops|
  {
    ops != [] ==> ValidOp(vs, ops[0]) && ValidOps(Do(vs, ops[0]), ops[1..])
  }

  function AnswerOf(vs: seq<Var>, op: VarOp): seq<Option<string>> {
    if op.VarGet? then [Get(vs, op.name)] else []
  }

  // ----- the map that the store is -----

  ghost predicate PlainOps(ops: seq<VarOp>) {
    forall i :: 0 <= i < |ops| ==> NUL !in ops[i].name && EQ !in ops[i].name && (ops[i].VarSet? ==> NUL !in ops[i].value)
  }

  function MapDo(m: map<string, string>, op: VarOp): map<string, string> {
    match op
    case VarSet(name, value, memory) => if memory then m[name := value] else m - {name}
    case VarUnset(name, _) => m - {name}
    case VarGet(_) => m
  }

  function MapAfter(m: map<string, string>, ops: seq<VarOp>): map<string, string>
    decreases |ops|
  {
    if ops == [] then m else MapAfter(MapDo(m, ops[0]), ops[1..])
  }

  function MapAnswers(m: map<string, string>, ops: seq<VarOp>): seq<Option<string>>
    decreases |ops|
  {
    if ops == [] then []
    else
      var name := ops[0].name;
      (if ops[0].VarGet? then [if name in m then Some(m[name]) else None] else []) + MapAnswers(MapDo(m, ops[0]), ops[1..])
  }

  /** Over every sequence of operations on names without `=` the store is a map: names
      stay distinct, every lookup answers as the map does, and no comparison fails. */
  lemma {:induction false} StoreIsMap(vs: seq<Var>, ops: seq<VarOp>)
    requires Distinct(vs) && PlainOps(ops)
    ensures ValidOps(vs, ops) && Distinct(After(vs, ops))
    ensures ToMap(After(vs, ops)) == MapAfter(ToMap(vs), ops)
    ensures Answers(vs, ops) == MapAnswers(ToMap(vs), ops)
    decreases |ops|
  {
    hide ToMap, Set, Unset, Get;
    if ops != [] {
      var op := ops[0];
      PlainIsComparable(vs, op.name);
      match op {
        case VarSet(name, value, memory) => SetIsUpdate(vs, name, value, memory);
        case VarUnset(name, _) => UnsetIsRemoval(vs, name);
        case VarGet(name) => GetIsLookup(vs, name);
      }
      StoreIsMap(Do(vs, op), ops[1..]);
    }
  }

  // ----- names with an equals sign -----

  /** Every entry that is taken for one of `name` has this name, whatever the buffer
      holds, if and only if there is no `=` in it. */
  lemma OnlyItsEntryIff(name: string)
    requires NUL !in name
    ensures (forall v: Var :: v.Valid() && v.Pair() != name && Matches(v, name) ==> v.name == name) <==> EQ !in name
  {
    if EQ !in name {
      forall v: Var | v.Valid()
        ensures Matches(v, name) <==> v.name == name
      {
        MatchesIs(v, name);
      }
    } else {
      EntryIs(name, []);
      assert Matches(Entry(name, []), name);
    }
  }

  /** Setting a name changes the binding of just this name, whatever the buffer holds,
      if and only if there is no `=` in it. */
  lemma SetIsUpdateIff(name: string)
    requires NUL !in name
    ensures (forall vs, value :: Distinct(vs) && Comparable(vs, name) && NUL !in value
                             ==> ToMap(Set(vs, name, value, true)) == ToMap(vs)[name := value])
            <==> EQ !in name
  {
    if EQ !in name {
      forall vs, value | Distinct(vs) && NUL !in value
        ensures ToMap(Set(vs, name, value, true)) == ToMap(vs)[name := value]
      {
        SetIsUpdate(vs, name, value, true);
      }
    } else {
      var v := Entry(name, []);
      EntryIs(name, []);
      assert Set([], name, [], true) == [v];
      ToMapOne(v);
      assert name !in ToMap(Set([], name, [], true));
    }
  }

  /** The family of inputs where it fails: setting `head=tail` drops a variable `head`
      whose value begins with `tail=`. */
  lemma SetDropsAnother(head: string, tail: string, rest: string, value: string)
    requires EQ !in head
    ensures Set([Var(head, tail + [EQ] + rest)], head + [EQ] + tail, value, true) == [Var(head, tail + [EQ] + value)]
  {
    var name := head + [EQ] + tail;
    var v := Var(head, tail + [EQ] + rest);
    assert v.Pair() == name + [EQ] + rest;
    assert FirstEq(name) == |head| by {
      assert name[|head|] == EQ && (forall i :: 0 <= i < |head| ==> name[i] == head[i]);
    }
    assert name[..|head|] == head && name[|head| + 1..] == tail;
    assert Matches(v, name);
    assert RemoveAt([v], 0) == [];
  }

  // ----- entries in the buffer -----

  /** The bytes from `off` on begin with this entry. */
  ghost predicate EntryAt(bytes: string, off: nat, v: Var) {
    off + |v.Line()| <= |bytes| && bytes[off..off + |v.Line()|] == v.Line()
  }

  lemma EntryOffset(vs: seq<Var>, k: nat)
    requires k < |vs|
    ensures EntryAt(Encode(vs), |Encode(vs[..k])|, vs[k])
    ensures |Encode(vs[..k + 1])| == |Encode(vs[..k])| + |vs[k].Line()|
  {
    EncodeTake(vs, k);
    EncodeAt(vs, k + 1);
  }

  lemma EncodeRemove(vs: seq<Var>, k: nat)
    requires k < |vs|
    ensures var off, len := |Encode(vs[..k])|, |vs[k].Line()|;
            off + len <= |Encode(vs)| && Encode(RemoveAt(vs, k)) == Encode(vs)[..off] + Encode(vs)[off + len..]
  {
    hide Encode, Var.Line;
    EncodeTake(vs, k);
    EncodeAt(vs, k + 1);
    EncodeConcat(vs[..k], vs[k + 1..]);
    assert (Encode(vs[..k]) + vs[k].Line())[..|Encode(vs[..k])|] == Encode(vs[..k]);
  }

  /** A byte of an entry, by its place in the entry. */
  lemma EntryByte(bytes: string, off: nat, v: Var, i: nat)
    requires EntryAt(bytes, off, v) && i < |v.Line()|
    ensures bytes[off + i] == v.Line()[i]
    ensures v.Line()[i] == if i < |v.name| then v.name[i] else if i == |v.name| then EQ
                           else if i < |v.Pair()| then v.value[i - |v.name| - 1] else NUL
  {
    assert bytes[off..off + |v.Line()|][i] == bytes[off + i];
  }

  /** The value in an entry is what is between its first `=` and its end. */
  lemma EntryValue(bytes: string, off: nat, v: Var)
    requires EntryAt(bytes, off, v)
    ensures bytes[off + |v.name| + 1..off + |v.Pair()|] == v.value
    ensures bytes[off..off + |v.Pair()|] == v.Pair()
  {
    forall i | 0 <= i < |v.Pair()|
      ensures bytes[off + i] == v.Pair()[i]
    {
      EntryByte(bytes, off, v, i);
    }
    var pair := bytes[off..off + |v.Pair()|];
    assert pair == v.Pair();
    assert bytes[off + |v.name| + 1..off + |v.Pair()|] == pair[|v.name| + 1..];
  }

  class Console {
    var varp: array?<char>
    var varsz: nat
    ghost var vars: seq<Var>

    ghost function Bytes(): string
      requires varp != null ==> varsz <= varp.Length
      reads this, varp
    {
      if varp == null then [] else varp[..varsz]
    }

    ghost predicate Valid()
      reads this, varp
    {
      && (if varp == null then varsz == 0 else varsz <= varp.Length)
      && AllValid(vars) && Bytes() == Encode(vars)
    }

    ghost function Map(): map<string, string>
      reads this
    {
      ToMap(vars)
    }

    constructor ()
      ensures Valid() && varp == null && vars == [] && Map() == map[]
    {
      varp, varsz, vars := null, 0, [];
    }

    /** Compares a name with the beginning of an entry, which must not be the whole
        entry: the comparison would run past both. */
    method CmpName(name: string, pair: nat, ghost v: Var) returns (r: bool)
      requires NUL !in name && v.Valid() && name != v.Pair()
      requires varp != null && varsz <= varp.Length && EntryAt(varp[..varsz], pair, v)
      ensures r == Matches(v, name)
    {
      hide EntryAt;
      var i := 0;
      PairByte(varp[..varsz], pair, v, 0);
      PairByte(varp[..varsz], pair, v, |v.Pair()|);
      while CharAt(name, i) == varp[pair + i]
        invariant pair + |v.Pair()| < varsz && i <= |name| && i <= |v.Pair()| && name[..i] == v.Pair()[..i]
        invariant varp[pair + i] == CharAt(v.Pair(), i)
        decreases |name| - i
      {
        SameSoFar(name, v.Pair(), i);
        PairByte(varp[..varsz], pair, v, i + 1);
        i := i + 1;
      }
      PairByte(varp[..varsz], pair, v, i);
      r := CharAt(name, i) == NUL && varp[pair + i] == EQ;
      MatchAt(v, name, i);
    }

    /** The length of the string at `pair`. */
    method StrLen(pair: nat, ghost v: Var) returns (len: nat)
      requires v.Valid() && varp != null && varsz <= varp.Length && EntryAt(varp[..varsz], pair, v)
      ensures len == |v.Pair()|
    {
      len := 0;
      EntryByte(varp[..varsz], pair, v, 0);
      while varp[pair + len] != NUL
        invariant len <= |v.Pair()| && varp[pair + len] == v.Line()[len]
        decreases |v.Pair()| - len
      {
        EntryByte(varp[..varsz], pair, v, len);
        EntryByte(varp[..varsz], pair, v, len + 1);
        len := len + 1;
      }
      EntryByte(varp[..varsz], pair, v, len);
    }

    /** The offset of the entry of this name; `k` is its index. */
    method FindVar(name: string) returns (pair: Option<nat>, ghost k: nat)
      requires Valid() && NUL !in name && Comparable(vars, name)
      ensures k == FirstMatch(vars, name) && (pair == None <==> k == |vars|)
      ensures pair.Some? ==> pair.value == |Encode(vars[..k])| < varsz
    {
      hide Encode, FirstMatch, Matches, Var.Pair;
      assert Encode(vars[..0]) == [] by { EncodeNone(vars); }
      var ptr := 0;
      k := 0;
      while ptr < varsz
        invariant k <= FirstMatch(vars, name) && ptr == |Encode(vars[..k])| <= varsz
        decreases |vars| - k
      {
        assert k < |vars| by {
          assert vars[..|vars|] == vars;
        }
        EntryOffset(vars, k);
        var eq := CmpName(name, ptr, vars[k]);
        if eq {
          return Some(ptr), k;
        }
        var len := StrLen(ptr, vars[k]);
        ptr := ptr + len + 1;
        k := k + 1;
      }
      EncodeNonempty(vars, k);
      pair := None;
    }

    /** Unlinks the entry at `pair` by moving the rest of the buffer down; a
        pointer outside the buffer is refused. */
    method RemoveVar(pair: nat, ghost k: nat) returns (ok: bool)
      requires Valid() && (pair < varsz ==> k < |vars| && pair == |Encode(vars[..k])|)
      modifies this, varp
      ensures Valid() && varp == old(varp) && ok == (pair < old(varsz))
      ensures vars == if ok then RemoveAt(old(vars), k) else old(vars)
    {
      hide Encode, RemoveAt;
      ok := pair < varsz;
      if ok {
        EntryOffset(vars, k);
        ghost var bytes := varp[..varsz];
        var len := StrLen(pair, vars[k]);
        len := len + 1;
        assert varp[pair + len..varsz] == bytes[pair + len..] && varp[..pair] == bytes[..pair];
        MoveDown(varp, pair, pair + len, varsz - (pair + len));
        varsz := varsz - len;
        RemoveAtKeepsValid(vars, k);
        EncodeRemove(vars, k);
        vars := RemoveAt(vars, k);
      }
    }

    static method MoveDown(a: array<char>, dest: nat, src: nat, count: nat)
      requires dest <= src && src + count <= a.Length
      modifies a
      ensures a[..dest + count] == old(a[..dest]) + old(a[src..src + count])
    {
      for i := 0 to count
        invariant a[..dest + i] == old(a[..dest]) + old(a[src..src + i])
        invariant a[src + i..] == old(a[src + i..])
      {
        assert a[src + i] == a[src + i..][0] == old(a[src + i..])[0];
        assert a[src + i + 1..] == a[src + i..][1..];
        a[dest + i] := a[src + i];
        assert a[..dest + i + 1] == a[..dest + i] + [a[dest + i]];
      }
    }

    /** The value of a variable: what follows the first `=` of its entry. */
    method GetVar(name: string) returns (value: Option<string>)
      requires Valid() && NUL !in name && Comparable(vars, name)
      ensures value == Get(vars, name)
      ensures Distinct(vars) && EQ !in name ==> value == if name in Map() then Some(Map()[name]) else None
    {
      hide Encode, ToMap, FirstMatch;
      if Distinct(vars) && EQ !in name {
        GetIsLookup(vars, name);
      }
      var pair, k := FindVar(name);
      if pair == None {
        return None;
      }
      EntryOffset(vars, k);
      var v := ValueAt(pair.value, vars[k]);
      value := Some(v);
    }

    /** The string after the first `=` of the entry at `pair`. */
    method ValueAt(pair: nat, ghost v: Var) returns (value: string)
      requires v.Valid() && varp != null && varsz <= varp.Length && EntryAt(varp[..varsz], pair, v)
      ensures value == v.value
    {
      var len := StrLen(pair, v);
      var i := 0;
      EntryByte(varp[..varsz], pair, v, 0);
      while varp[pair + i] != EQ
        invariant i <= |v.name| && varp[pair + i] == v.Line()[i]
        decreases |v.name| - i
      {
        EntryByte(varp[..varsz], pair, v, i);
        EntryByte(varp[..varsz], pair, v, i + 1);
        i := i + 1;
      }
      EntryByte(varp[..varsz], pair, v, i);
      EntryValue(varp[..varsz], pair, v);
      value := varp[..varsz][pair + i + 1..pair + len];
    }

    /** A larger or smaller copy of the buffer, unless memory runs out. */
    method Realloc(newsize: nat, memory: bool) returns (p: array?<char>)
      requires varp != null && varsz <= newsize && varsz <= varp.Length
      ensures p != null <==> memory
      ensures p != null ==> fresh(p) && p.Length == newsize && p[..varsz] == varp[..varsz]
    {
      p := null;
      if memory {
        var old' := varp;
        p := new char[newsize](i requires 0 <= i reads old' => if i < old'.Length then old'[i] else NUL);
      }
    }

    method SetVar(name: string, value: string, memory: bool) returns (ret: int)
      requires Valid() && NUL !in name && NUL !in value && Comparable(vars, name)
      modifies this, varp
      ensures Valid() && (varp == null || varp == old(varp) || fresh(varp))
      ensures ret == if memory then OK else -ENOMEM
      ensures vars == Set(old(vars), name, value, memory)
      ensures old(Distinct(vars)) && EQ !in name ==>
                && Distinct(vars)
                && Map() == if memory then old(Map())[name := value] else old(Map()) - {name}
    {
      hide Encode, ToMap, RemoveAt, FirstMatch;
      if Distinct(vars) && EQ !in name {
        SetIsUpdate(vars, name, value, memory);
      }
      if varp != null {
        var pair, k := FindVar(name);
        if pair.Some? {
          var _ := RemoveVar(pair.value, k);
        }
      } else {
        EncodeEmpty(vars);
      }
      ret := Append(name, value, memory);
    }

    /** Adds an entry at the end of the buffer, which grows to hold it. */
    method Append(name: string, value: string, memory: bool) returns (ret: int)
      requires Valid() && NUL !in name && NUL !in value
      modifies this
      ensures Valid() && (varp == null || varp == old(varp) || fresh(varp))
      ensures ret == if memory then OK else -ENOMEM
      ensures vars == old(vars) + if memory then [Entry(name, value)] else []
    {
      hide Encode, Entry;
      var line := name + [EQ] + value + [NUL];
      EntryIs(name, value);
      var newvarp;
      if varp != null {
        newvarp := Realloc(varsz + |line|, memory);
      } else {
        newvarp := null;
        if memory {
          newvarp := new char[|line|];
        }
      }
      if newvarp == null {
        return -ENOMEM;
      }
      Print(newvarp, varsz, line);
      EncodeConcat(vars, [Entry(name, value)]);
      EncodeOne(Entry(name, value));
      varp, varsz := newvarp, varsz + |line|;
      vars := vars + [Entry(name, value)];
      ret := OK;
    }

    static method Print(a: array<char>, off: nat, line: string)
      requires off + |line| <= a.Length
      modifies a
      ensures a[..off + |line|] == old(a[..off]) + line
    {
      for i := 0 to |line|
        invariant a[..off + i] == old(a[..off]) + line[..i]
      {
        a[off + i] := line[i];
        assert a[..off + i + 1] == a[..off + i] + [line[i]];
      }
    }

    /** `memory` is whether the buffer can be reallocated to a smaller size. */
    method UnsetVar(name: string, memory: bool) returns (ret: int)
      requires Valid() && NUL !in name && Comparable(vars, name)
      modifies this, varp
      ensures Valid() && (varp == null || varp == old(varp) || fresh(varp))
      ensures vars == Unset(old(vars), name)
      ensures old(Distinct(vars)) && EQ !in name ==> Distinct(vars) && Map() == old(Map()) - {name}
      ensures ret == if Get(old(vars), name).Some? && vars != [] && !memory then -ENOMEM else OK
    {
      hide Encode, ToMap, RemoveAt, FirstMatch;
      ret := OK;
      if Distinct(vars) && EQ !in name {
        UnsetIsRemoval(vars, name);
      }
      var pair, k := FindVar(name);
      if pair.Some? {
        var _ := RemoveVar(pair.value, k);
        EncodeNothing(vars);
        if varsz <= 0 {
          varp := null;
        } else {
          var newvarp := Realloc(varsz, memory);
          if newvarp == null {
            return -ENOMEM;
          }
          varp := newvarp;
        }
      }
    }

    method Run(op: VarOp) returns (value: seq<Option<string>>)
      requires Valid() && ValidOp(vars, op)
      modifies this, varp
      ensures Valid() && (varp == null || varp == old(varp) || fresh(varp))
      ensures vars == Do(old(vars), op) && value == AnswerOf(old(vars), op)
    {
      hide Set, Unset, Get, Encode, AllValid, Distinct, ToMap;
      value := [];
      match op
      case VarSet(name, content, memory) =>
        var _ := SetVar(name, content, memory);
      case VarUnset(name, memory) =>
        var _ := UnsetVar(name, memory);
      case VarGet(name) =>
        var answer := GetVar(name);
        value := [answer];
    }

    /** Any sequence of operations acts on the list of entries one after the other. */
    method RunAll(ops: seq<VarOp>) returns (values: seq<Option<string>>)
      requires Valid() && ValidOps(vars, ops)
      modifies this, varp
      ensures Valid() && (varp == null || varp == old(varp) || fresh(varp))
      ensures vars == After(old(vars), ops) && values == Answers(old(vars), ops)
    {
      hide Valid, ValidOp, Do, AnswerOf;
      values := [];
      ghost var first := vars;
      for n := 0 to |ops|
        invariant Valid() && (varp == null || varp == old(varp) || fresh(varp))
        invariant ValidOps(vars, ops[n..])
        invariant After(first, ops) == After(vars, ops[n..]) && Answers(first, ops) == values + Answers(vars, ops[n..])
      {
        assert ops[n..][0] == ops[n] && ops[n..][1..] == ops[n + 1..];
        var value := Run(ops[n]);
        values := values + value;
      }
    }

    /** Calls `cb` on each `name=value` string until it answers non-zero. */
    method ForEachVar(cb: string -> int) returns (ret: int, visited: seq<string>)
      requires Valid()
      ensures |visited| <= |vars| && forall i :: 0 <= i < |visited| ==> visited[i] == vars[i].Pair()
      ensures forall i :: 0 <= i < |visited| - 1 ==> cb(visited[i]) == 0
      ensures if ret == 0 then |visited| == |vars| && (visited != [] ==> cb(visited[|visited| - 1]) == 0)
              else visited != [] && ret == cb(visited[|visited| - 1])
    {
      hide Encode, EntryAt;
      assert Encode(vars[..0]) == [] by { EncodeNone(vars); }
      ret, visited := OK, [];
      var ptr := 0;
      while ptr < varsz
        invariant |visited| <= |vars| && ptr == |Encode(vars[..|visited|])| <= varsz && ret == 0
        invariant forall i :: 0 <= i < |visited| ==> visited[i] == vars[i].Pair() && cb(visited[i]) == 0
        decreases |vars| - |visited|
      {
        ghost var k := |visited|;
        assert k < |vars| by {
          assert vars[..|vars|] == vars;
        }
        EntryOffset(vars, k);
        var pair := PairAt(ptr, vars[k]);
        visited := visited + [pair];
        ret := cb(pair);
        if ret != 0 {
          return;
        }
        ptr := ptr + |pair| + 1;
      }
      EncodeNonempty(vars, |visited|);
    }

    /** The string at `pair`. */
    method PairAt(pair: nat, ghost v: Var) returns (s: string)
      requires v.Valid() && varp != null && varsz <= varp.Length && EntryAt(varp[..varsz], pair, v)
      ensures s == v.Pair()
    {
      var len := StrLen(pair, v);
      EntryValue(varp[..varsz], pair, v);
      s := varp[..varsz][pair..pair + len];
    }
  }

  /** A byte of an entry that is known to hold this pair. */
  lemma PairByte(bytes: string, off: nat, v: Var, i: nat)
    requires EntryAt(bytes, off, v) && i <= |v.Pair()|
    ensures off + i < |bytes| && bytes[off + i] == CharAt(v.Pair(), i)
  {
    EntryByte(bytes, off, v, i);
  }

  lemma SameSoFar(name: string, pair: string, i: nat)
    requires NUL !in name && NUL !in pair && name != pair && i <= |name| && i <= |pair|
    requires name[..i] == pair[..i] && CharAt(name, i) == CharAt(pair, i)
    ensures i < |name| && i < |pair| && name[..i + 1] == pair[..i + 1]
  {
  }

  /** Where the strings first differ the comparison is decided. */
  lemma MatchAt(v: Var, name: string, i: nat)
    requires NUL !in name && v.Valid() && i <= |name| && i <= |v.Pair()| && name[..i] == v.Pair()[..i]
    requires CharAt(name, i) != CharAt(v.Pair(), i)
    ensures Matches(v, name) <==> CharAt(name, i) == NUL && CharAt(v.Pair(), i) == EQ
  {
    var whole := name + [EQ];
    if i == |name| && CharAt(v.Pair(), i) == EQ {
      assert v.Pair()[..i + 1] == whole;
    }
  }

  lemma RemoveAtKeepsValid(vs: seq<Var>, k: nat)
    requires AllValid(vs) && k < |vs|
    ensures AllValid(RemoveAt(vs, k))
  {
  }

  lemma EncodeEmpty(vs: seq<Var>)
    requires Encode(vs) == []
    ensures vs == []
  {
  }

  lemma EncodeNothing(vs: seq<Var>)
    ensures Encode(vs) == [] <==> vs == []
  {
  }

  lemma EncodeNone(vs: seq<Var>)
    ensures Encode(vs[..0]) == []
  {
  }

  lemma EncodeNonempty(vs: seq<Var>, k: nat)
    requires k <= |vs| && |Encode(vs[..k])| == |Encode(vs)|
    ensures k == |vs|
  {
    EncodeAt(vs, k);
  }
}
