/** The registered binary formats: a linked list of loaders, the last registered
    first, and the loading of a module by the first loader that accepts it. */
module Binfmt {
  import opened Common

  const OK := 0
  const EINVAL := 22
  const ENOENT := 2

  /** A loader; `load` answers for a file name, `unload` is its unload method. */
  class Loader {
    var next: Loader?
    const load: string -> int
    const unload: nat

    constructor (load: string -> int, unload: nat)
      ensures this.load == load && this.unload == unload && next == null
    {
      this.load, this.unload, next := load, unload, null;
    }
  }

  class Binary {
    var filename: string
    var unload: Option<nat>
    var priority: int

    constructor (filename: string)
      ensures this.filename == filename && unload == None
    {
      this.filename, unload, priority := filename, None, 0;
    }
  }

  /** The first place of a loader in a list, or its length. */
  ghost function Place(b: Loader, list: seq<Loader>): (k: nat)
    ensures k <= |list| && (k < |list| <==> b in list) && (k < |list| ==> list[k] == b)
    ensures b !in list[..k]
  {
    if list == [] then 0 else if list[0] == b then 0 else 1 + Place(b, list[1..])
  }

  ghost function Without(list: seq<Loader>, b: Loader): seq<Loader> {
    var k := Place(b, list);
    if k < |list| then list[..k] + list[k + 1..] else list
  }

  /** The first loader that accepts the file, or the length of the list. */
  function FirstAccepting(list: seq<Loader>, filename: string): (k: nat)
    ensures k <= |list| && (k < |list| ==> list[k].load(filename) == OK)
    ensures forall i :: 0 <= i < k ==> list[i].load(filename) != OK
  {
    if list == [] then 0
    else if list[0].load(filename) == OK then 0
    else 1 + FirstAccepting(list[1..], filename)
  }

  /** The first `n` loaders, each tried on this file. */
  ghost function Tried(list: seq<Loader>, filename: string, n: nat): seq<(Loader, string)>
    requires n <= |list|
  {
    if n == 0 then [] else Tried(list, filename, n - 1) + [(list[n - 1], filename)]
  }

  /** The loader at a place of the list, null at its end. */
  ghost function At(list: seq<Loader>, i: nat): Loader? {
    if i < |list| then list[i] else null
  }

  /** `list` is the chain of `next` pointers from `head` to the end. */
  ghost predicate Chain(head: Loader?, list: seq<Loader>)
    reads list
  {
    && head == At(list, 0)
    && (forall i :: 0 <= i < |list| ==> list[i].next == At(list, i + 1))
    && (forall i, j :: 0 <= i < j < |list| ==> list[i] != list[j])
  }

  class Registry {
    var head: Loader?
    ghost var list: seq<Loader>
    /** The loaders that have been tried, with the file names. */
    var tried: seq<(Loader, string)>

    constructor ()
      ensures Valid() && list == [] && tried == []
    {
      head, list, tried := null, [], [];
    }

    ghost predicate Valid()
      reads this, list
    {
      Chain(head, list)
    }

    /** Registering a listed loader again ties the list into a ring: following the
        pointers from it leads back to it. */
    method Register(b: Loader?) returns (ret: int)
      requires Valid()
      modifies this, b
      ensures b == null ==> ret == -EINVAL && Valid() && list == old(list)
      ensures b != null ==> ret == OK && head == b && b.next == old(head)
      ensures b != null && b !in old(list) ==> Valid() && list == [b] + old(list)
      ensures b != null && b in old(list) ==>
                var k := Place(b, old(list));
                b.next == old(list)[0] && forall i :: 0 <= i < k ==> old(list)[i].next == old(list)[i + 1]
    {
      if b == null {
        return -EINVAL;
      }
      ghost var k := Place(b, list);
      assert forall i :: 0 <= i < k ==> list[i] == list[..k][i] != b;
      b.next := head;
      head := b;
      if b !in list {
        list := [b] + list;
      }
      ret := OK;
    }

    /** Walks to a loader, remembering the one before it. */
    method Search(b: Loader) returns (prev: Loader?, curr: Loader?)
      requires Valid()
      ensures var k := Place(b, list); curr == At(list, k) && prev == if k == 0 then null else list[k - 1]
    {
      prev, curr := null, head;
      ghost var k := 0;
      while curr != null && curr != b
        invariant k <= Place(b, list) && curr == At(list, k) && prev == if k == 0 then null else list[k - 1]
        decreases |list| - k
      {
        prev, curr := curr, curr.next;
        k := k + 1;
      }
    }

    method Unregister(b: Loader?) returns (ret: int)
      requires Valid()
      modifies this, b, list
      ensures Valid()
      ensures b == null || b !in old(list) ==> ret == -EINVAL && list == old(list)
      ensures b != null && b in old(list) ==> ret == OK && list == Without(old(list), b) && b.next == null
    {
      ret := -EINVAL;
      if b != null {
        var prev, curr := Search(b);
        if curr != null {
          Unlink(prev, b);
          ret := OK;
        }
      }
    }

    method Unlink(prev: Loader?, b: Loader)
      requires Valid() && b in list
      requires var k := Place(b, list); prev == if k == 0 then null else list[k - 1]
      modifies this, list
      ensures Valid() && list == Without(old(list), b) && b.next == null
    {
      hide Place;
      ghost var k := Place(b, list);
      if prev == null {
        head := b.next;
        b.next := null;
        assert list[..0] + list[1..] == list[1..];
        list := list[1..];
      } else {
        UnlinkAfter(prev, b, k);
      }
    }

    method UnlinkAfter(prev: Loader, b: Loader, ghost k: nat)
      requires Valid() && 0 < k < |list| && list[k] == b && list[k - 1] == prev
      modifies `list, prev, b
      ensures Valid() && list == old(list)[..k] + old(list)[k + 1..] && b.next == null
    {
      ghost var was := list;
      prev.next := b.next;
      b.next := null;
      list := was[..k] + was[k + 1..];
      forall i | 0 <= i < |list|
        ensures list[i].next == At(list, i + 1)
      {
        var j := if i < k then i else i + 1;
        assert list[i] == was[j];
        assert i + 1 != k ==> was[j] != prev && was[j] != b;
      }
    }

    /** Tries the loaders from the last registered on. */
    method LoadAbsolute(bin: Binary) returns (ret: int)
      requires Valid()
      modifies `tried, bin`unload
      ensures Valid() && list == old(list)
      ensures ret == AnswerOf(list, bin.filename)
      ensures bin.unload == UnloadOf(list, bin.filename, old(bin.unload))
      ensures tried == old(tried) + TriedFor(list, bin.filename)
    {
      var b, calls: seq<(Loader, string)>;
      b, ret, calls := Walk(bin.filename);
      tried := tried + calls;
      if ret == OK {
        bin.unload := Some(b.unload);
      }
    }

    /** Calls one loader after another until one accepts. */
    method Walk(filename: string) returns (b: Loader?, ret: int, calls: seq<(Loader, string)>)
      requires Valid()
      ensures b == At(list, FirstAccepting(list, filename))
      ensures ret == AnswerOf(list, filename)
      ensures calls == TriedFor(list, filename)
    {
      ret, b, calls := -ENOENT, head, [];
      ghost var i := 0;
      while b != null
        invariant i <= FirstAccepting(list, filename) && b == At(list, i)
        invariant ret == (if i == 0 then -ENOENT else list[i - 1].load(filename)) != OK && calls == Tried(list, filename, i)
        decreases |list| - i
      {
        hide FirstAccepting;
        ret := b.load(filename);
        calls := calls + [(b, filename)];
        if ret == OK {
          break;
        }
        b := b.next;
        i := i + 1;
      }
    }

    /** `paths` are the absolute names that a search of PATH makes of the relative
        one, which is put back afterwards. */
    method LoadFromPath(bin: Binary, paths: seq<string>) returns (ret: int)
      requires Valid()
      modifies `tried, bin`unload, bin`filename
      ensures Valid() && list == old(list) && bin.filename == old(bin.filename)
      ensures var k := FirstLoadable(list, paths);
              && ret == (if paths == [] then -ENOENT else AnswerOf(list, paths[if k < |paths| then k else |paths| - 1]))
              && bin.unload == (if k < |paths| then UnloadOf(list, paths[k], old(bin.unload)) else old(bin.unload))
      ensures tried == old(tried) + TriedAlong(list, paths)
    {
      hide FirstAccepting, TriedFor, FirstLoadable, Chain;
      var relpath := bin.filename;
      ret := -ENOENT;
      var i := 0;
      while i < |paths|
        invariant Valid() && list == old(list) && bin.unload == old(bin.unload)
        invariant 0 <= i <= FirstLoadable(list, paths)
        invariant ret == if i == 0 then -ENOENT else AnswerOf(list, paths[i - 1])
        invariant tried + TriedAlong(list, paths[i..]) == old(tried) + TriedAlong(list, paths)
      {
        assert paths[i..][1..] == paths[i + 1..];
        bin.filename := paths[i];
        ret := LoadAbsolute(bin);
        if ret == OK {
          bin.filename := relpath;
          return;
        }
        i := i + 1;
      }
      bin.filename := relpath;
    }

    /** `status` is whether the thread's priority can be read, and `priority` what it
        is then. */
    method LoadModule(bin: Binary, paths: seq<string>, status: int, priority: int) returns (ret: int)
      requires Valid()
      modifies `tried, bin
      ensures Valid() && list == old(list) && bin.filename == old(bin.filename)
      ensures status < 0 ==> ret == status && bin.unload == old(bin.unload) && tried == old(tried)
      ensures status >= 0 ==>
                var names := if Absolute(bin.filename) then [bin.filename] else paths;
                var k := FirstLoadable(list, names);
                && bin.priority == (if priority <= 0 then SCHED_PRIORITY_DEFAULT else priority)
                && ret == (if names == [] then -ENOENT else AnswerOf(list, names[if k < |names| then k else |names| - 1]))
                && bin.unload == (if k < |names| then UnloadOf(list, names[k], old(bin.unload)) else old(bin.unload))
                && tried == old(tried) + TriedAlong(list, names)
    {
      if status < 0 {
        return status;
      }
      bin.priority := priority;
      if bin.priority <= 0 {
        bin.priority := SCHED_PRIORITY_DEFAULT;
      }
      if Absolute(bin.filename) {
        assert [bin.filename][1..] == [];
        ret := LoadAbsolute(bin);
      } else {
        ret := LoadFromPath(bin, paths);
      }
    }
  }

  const SCHED_PRIORITY_DEFAULT := 100

  predicate Loadable(list: seq<Loader>, filename: string) {
    FirstAccepting(list, filename) < |list|
  }

  /** What loading a file answers: success if some loader accepts it, and otherwise what
      the last loader of the list said, if there is one. */
  function AnswerOf(list: seq<Loader>, filename: string): int {
    if Loadable(list, filename) then OK
    else if list == [] then -ENOENT
    else list[|list| - 1].load(filename)
  }

  /** The unload method that loading leaves: that of the most recently registered
      loader that accepts the file, or what was there. */
  function UnloadOf(list: seq<Loader>, filename: string, before: Option<nat>): Option<nat> {
    if Loadable(list, filename) then Some(list[FirstAccepting(list, filename)].unload) else before
  }

  ghost function TriedFor(list: seq<Loader>, filename: string): seq<(Loader, string)> {
    Tried(list, filename, if Loadable(list, filename) then FirstAccepting(list, filename) + 1 else |list|)
  }

  /** What loading a file does, by what the loaders of the list answer: the first that
      accepts it, that is the last registered, is the last one called and gives the
      unload method; if none accepts, all are called and nothing is saved. */
  lemma LoadsFirst(list: seq<Loader>, filename: string, before: Option<nat>)
    ensures var tried := TriedFor(list, filename);
            && (forall k :: 0 <= k < |list| && list[k].load(filename) == OK
                            && (forall i :: 0 <= i < k ==> list[i].load(filename) != OK)
                  ==> && AnswerOf(list, filename) == OK && UnloadOf(list, filename, before) == Some(list[k].unload)
                      && |tried| == k + 1 && forall i :: 0 <= i <= k ==> tried[i] == (list[i], filename))
            && ((forall i :: 0 <= i < |list| ==> list[i].load(filename) != OK)
                  ==> && AnswerOf(list, filename) == (if list == [] then -2 else list[|list| - 1].load(filename))
                      && UnloadOf(list, filename, before) == before
                      && |tried| == |list| && forall i :: 0 <= i < |list| ==> tried[i] == (list[i], filename))
  {
    hide FirstAccepting, Tried;
    var n := FirstAccepting(list, filename);
    assert n < |list| ==> list[n].load(filename) == OK;
    TriedIs(list, filename, if n < |list| then n + 1 else |list|);
  }

  lemma {:induction false} TriedIs(list: seq<Loader>, filename: string, n: nat)
    requires n <= |list|
    ensures |Tried(list, filename, n)| == n && forall i :: 0 <= i < n ==> Tried(list, filename, n)[i] == (list[i], filename)
  {
    if n > 0 {
      TriedIs(list, filename, n - 1);
    }
  }

  /** A search of several names goes on to the next exactly if no loader accepts. */
  lemma TriedAlongIs(list: seq<Loader>, names: seq<string>)
    ensures TriedAlong(list, []) == []
    ensures names != [] ==>
              TriedAlong(list, names) == TriedFor(list, names[0])
                + if exists i :: 0 <= i < |list| && list[i].load(names[0]) == OK then [] else TriedAlong(list, names[1..])
  {
    hide FirstAccepting, TriedFor;
    if names != [] {
      var n := FirstAccepting(list, names[0]);
      assert n < |list| ==> list[n].load(names[0]) == OK;
    }
  }

  /** Taking a loader off a list leaves all others in their order. */
  lemma WithoutIs(list: seq<Loader>, b: Loader, k: nat)
    requires k < |list| && list[k] == b && forall i :: 0 <= i < k ==> list[i] != b
    ensures |Without(list, b)| == |list| - 1
    ensures forall i :: 0 <= i < |list| - 1 ==> Without(list, b)[i] == if i < k then list[i] else list[i + 1]
  {
    hide Place;
    var p := Place(b, list);
    assert p == k by {
      assert forall i :: 0 <= i < p ==> list[i] == list[..p][i];
    }
  }

  /** The calls made for one name after another, up to the first that is loaded. */
  ghost function TriedAlong(list: seq<Loader>, names: seq<string>): seq<(Loader, string)> {
    if names == [] then []
    else TriedFor(list, names[0]) + if Loadable(list, names[0]) then [] else TriedAlong(list, names[1..])
  }

  predicate Absolute(filename: string) {
    filename != [] && filename[0] == '/'
  }

  /** The first name that some loader accepts, or the number of names. */
  function FirstLoadable(list: seq<Loader>, names: seq<string>): (k: nat)
    ensures k <= |names| && (k < |names| ==> Loadable(list, names[k]))
    ensures forall i :: 0 <= i < k ==> !Loadable(list, names[i])
  {
    if names == [] then 0 else if Loadable(list, names[0]) then 0 else 1 + FirstLoadable(list, names[1..])
  }
}
