/**
 * The document `yamlifySecrets` builds before handing it to the YAML
 * serialiser: nested records whose values are encrypted tokens or further
 * records (utils.ts:49-61). A JavaScript record keeps its properties in the
 * order they were first assigned, and assigning an existing property keeps
 * its place, so a record is an ordered association list here.
 */
module SecretTree {
  import opened Wrappers

  /** A property value of the document: an encrypted token, or a nested record. */
  datatype Node = Leaf(token: string) | Map(entries: seq<(string, Node)>)

  /** A record: its properties in insertion order. */
  type Record = seq<(string, Node)>

  /** The property names of a record, in order. */
  function Keys(r: Record): (ks: seq<string>)
    ensures |ks| == |r|
    ensures forall i :: 0 <= i < |r| ==> ks[i] == r[i].0
  {
    if r == [] then [] else [r[0].0] + Keys(r[1..])
  }

  /** `node[k]`: the value of the first property named `k`, if any. */
  function Get(r: Record, k: string): (v: Option<Node>)
    ensures v.None? <==> k !in Keys(r)
  {
    if r == [] then None
    else if r[0].0 == k then Some(r[0].1)
    else Get(r[1..], k)
  }

  /** A value found under `k` is an entry of the record. */
  lemma {:induction false} GetFinds(r: Record, k: string)
    requires Get(r, k).Some?
    ensures (k, Get(r, k).value) in r
  {
    if r[0].0 != k {
      GetFinds(r[1..], k);
    }
  }

  /** The keys of a record after `k` is assigned: unchanged if `k` was there, else `k` appended. */
  function KeysAfterPut(ks: seq<string>, k: string): seq<string>
  {
    if k in ks then ks else ks + [k]
  }

  /** `node[k] = v` on a record. */
  function Put(r: Record, k: string, v: Node): Record
  {
    if r == [] then [(k, v)]
    else if r[0].0 == k then [(k, v)] + r[1..]
    else [r[0]] + Put(r[1..], k, v)
  }

  /** After `node[k] = v`, reading `k` gives `v` and every other property reads as before. */
  lemma {:induction false} PutGet(r: Record, k: string, v: Node, k': string)
    ensures Get(Put(r, k, v), k') == if k' == k then Some(v) else Get(r, k')
  {
    if r != [] && r[0].0 != k {
      PutGet(r[1..], k, v, k');
    }
  }

  /** After `node[k] = v`, an existing `k` keeps its place and a new one goes last. */
  lemma {:induction false} PutKeys(r: Record, k: string, v: Node)
    ensures Keys(Put(r, k, v)) == KeysAfterPut(Keys(r), k)
  {
    if r != [] && r[0].0 != k {
      PutKeys(r[1..], k, v);
      assert Keys(r) == [r[0].0] + Keys(r[1..]);
      assert Keys(Put(r, k, v)) == [r[0].0] + Keys(Put(r[1..], k, v));
    } else if r != [] {
      assert Keys(Put(r, k, v)) == [k] + Keys(r[1..]);
      assert Keys(r) == [k] + Keys(r[1..]);
    }
  }

  /** Assigning a property twice leaves what the second assignment leaves. */
  lemma {:induction false} PutPut(r: Record, k: string, v: Node, w: Node)
    ensures Put(Put(r, k, v), k, w) == Put(r, k, w)
  {
    if r != [] && r[0].0 != k {
      PutPut(r[1..], k, v, w);
      assert Put(r, k, v)[1..] == Put(r[1..], k, v);
    }
  }

  /**
   * The record the walk steps into under `k`: the record already there, or a
   * fresh empty one when `k` is missing or holds a token (utils.ts:55).
   */
  function Child(r: Record, k: string): Record
  {
    match Get(r, k)
    case Some(Map(e)) => e
    case _ => []
  }

  /**
   * The specification of one insertion (utils.ts:53-60): walk `path` from
   * the record `r`, reusing records and replacing anything else by a fresh
   * record, and assign `v` to `k` at the end.
   */
  function Insert(r: Record, path: seq<string>, k: string, v: Node): Record
    decreases |path|
  {
    if path == [] then Put(r, k, v)
    else Put(r, path[0], Map(Insert(Child(r, path[0]), path[1..], k, v)))
  }

  /** The value reached by following the property names in `addr` from `r`. */
  function Lookup(r: Record, addr: seq<string>): Option<Node>
    requires addr != []
    decreases |addr|
  {
    if |addr| == 1 then Get(r, addr[0])
    else match Get(r, addr[0])
      case Some(Map(e)) => Lookup(e, addr[1..])
      case _ => None
  }

  predicate IsPrefix(a: seq<string>, b: seq<string>)
  {
    |a| <= |b| && b[..|a|] == a
  }

  /** Two addresses are comparable when one lies on the way to the other. */
  predicate Comparable(a: seq<string>, b: seq<string>)
  {
    IsPrefix(a, b) || IsPrefix(b, a)
  }

  /** Nothing can be found in an empty record. */
  lemma LookupEmpty(addr: seq<string>)
    requires addr != []
    ensures Lookup([], addr) == None
  {
    assert Get([], addr[0]) == None;
  }

  /** Looking below `addr[0]` goes through the child record the walk would enter. */
  lemma LookupThroughChild(r: Record, addr: seq<string>)
    requires |addr| >= 2
    ensures Lookup(r, addr) == Lookup(Child(r, addr[0]), addr[1..])
  {
    if !(Get(r, addr[0]).Some? && Get(r, addr[0]).value.Map?) {
      LookupEmpty(addr[1..]);
    }
  }

  /** Two records that agree on `addr[0]` agree on everything below it. */
  lemma LookupSameHead(r: Record, r': Record, addr: seq<string>)
    requires addr != [] && Get(r, addr[0]) == Get(r', addr[0])
    ensures Lookup(r, addr) == Lookup(r', addr)
  {
    if |addr| >= 2 {
      LookupThroughChild(r, addr);
      LookupThroughChild(r', addr);
    }
  }

  /** The first step of a non-empty insertion puts the inserted child record under `path[0]`. */
  lemma InsertHead(r: Record, path: seq<string>, k: string, v: Node)
    requires path != []
    ensures Get(Insert(r, path, k, v), path[0]) == Some(Map(Insert(Child(r, path[0]), path[1..], k, v)))
    ensures Child(Insert(r, path, k, v), path[0]) == Insert(Child(r, path[0]), path[1..], k, v)
    ensures forall x :: x != path[0] ==> Get(Insert(r, path, k, v), x) == Get(r, x)
  {
    var c := Map(Insert(Child(r, path[0]), path[1..], k, v));
    PutGet(r, path[0], c, path[0]);
    forall x | x != path[0] ensures Get(Insert(r, path, k, v), x) == Get(r, x) {
      PutGet(r, path[0], c, x);
    }
  }

  /** After an insertion, its own address holds the inserted value (last write wins). */
  lemma {:induction false} InsertWrites(r: Record, path: seq<string>, k: string, v: Node)
    ensures Lookup(Insert(r, path, k, v), path + [k]) == Some(v)
    decreases |path|
  {
    if path == [] {
      PutGet(r, k, v, k);
    } else {
      InsertWrites(Child(r, path[0]), path[1..], k, v);
      InsertHead(r, path, k, v);
      assert (path + [k])[1..] == path[1..] + [k];
      LookupThroughChild(Insert(r, path, k, v), path + [k]);
    }
  }

  /** A common first step can be added to, or dropped from, two addresses without changing whether one is a prefix of the other. */
  lemma PrefixCons(x: string, a: seq<string>, b: seq<string>)
    ensures IsPrefix([x] + a, [x] + b) <==> IsPrefix(a, b)
  {
    if |a| <= |b| {
      assert ([x] + b)[..|a| + 1] == [x] + b[..|a|];
    }
    if IsPrefix([x] + a, [x] + b) {
      assert ([x] + b)[..|a| + 1][1..] == b[..|a|];
      assert ([x] + a)[1..] == a;
    }
  }

  /** If `addr` and `a` part ways after their common first step, their tails part ways too. */
  lemma TailsIncomparable(addr: seq<string>, a: seq<string>)
    requires |addr| >= 2 && |a| >= 2 && addr[0] == a[0] && !Comparable(addr, a)
    ensures !Comparable(addr[1..], a[1..])
  {
    assert addr == [addr[0]] + addr[1..];
    assert a == [a[0]] + a[1..];
    PrefixCons(a[0], addr[1..], a[1..]);
    PrefixCons(a[0], a[1..], addr[1..]);
  }

  /**
   * An insertion leaves every address that is neither on its way nor below
   * it exactly as it was: earlier entries under a shared prefix survive.
   */
  lemma {:induction false} InsertKeepsOthers(r: Record, path: seq<string>, k: string, v: Node, addr: seq<string>)
    requires addr != [] && !Comparable(addr, path + [k])
    ensures Lookup(Insert(r, path, k, v), addr) == Lookup(r, addr)
    decreases |path|
  {
    var a := path + [k];
    var r' := Insert(r, path, k, v);
    if path == [] {
      assert addr[..1] == [addr[0]];
      assert addr[0] != k;
      PutGet(r, k, v, addr[0]);
      LookupSameHead(r, r', addr);
    } else if addr[0] != path[0] {
      InsertHead(r, path, k, v);
      LookupSameHead(r, r', addr);
    } else {
      assert a[..1] == [a[0]];
      assert |addr| >= 2;
      TailsIncomparable(addr, a);
      assert a[1..] == path[1..] + [k];
      InsertKeepsOthers(Child(r, path[0]), path[1..], k, v, addr[1..]);
      InsertHead(r, path, k, v);
      LookupThroughChild(r, addr);
      LookupThroughChild(r', addr);
    }
  }

  /** Below a token nothing can be found: a token written over a subtree discards all of it. */
  lemma {:induction false} InsertClearsBelow(r: Record, path: seq<string>, k: string, t: string, addr: seq<string>)
    requires IsPrefix(path + [k], addr) && |addr| > |path| + 1
    ensures Lookup(Insert(r, path, k, Leaf(t)), addr) == None
    decreases |path|
  {
    var r' := Insert(r, path, k, Leaf(t));
    LookupThroughChild(r', addr);
    assert addr[0] == (path + [k])[0];
    if path == [] {
      PutGet(r, k, Leaf(t), k);
      LookupEmpty(addr[1..]);
    } else {
      assert IsPrefix(path[1..] + [k], addr[1..]) by {
        assert (path + [k])[1..] == path[1..] + [k];
        assert addr[1..][..|path|] == addr[..|path| + 1][1..];
      }
      InsertClearsBelow(Child(r, path[0]), path[1..], k, t, addr[1..]);
      InsertHead(r, path, k, Leaf(t));
    }
  }

  /** The keys an insertion leaves in the record it starts from. */
  lemma InsertKeys(r: Record, path: seq<string>, k: string, v: Node)
    ensures Keys(Insert(r, path, k, v)) == KeysAfterPut(Keys(r), (path + [k])[0])
  {
    if path == [] {
      PutKeys(r, k, v);
    } else {
      PutKeys(r, path[0], Map(Insert(Child(r, path[0]), path[1..], k, v)));
    }
  }

  /** The keys below `addr` before an insertion passes through it: those of the record there, or none. */
  function KeysOn(r: Record, addr: seq<string>): seq<string>
    requires addr != []
  {
    match Lookup(r, addr)
    case Some(Map(e)) => Keys(e)
    case _ => []
  }

  /** `n` is a record whose property names are `ks`, in that order. */
  predicate IsRecordWithKeys(n: Option<Node>, ks: seq<string>)
  {
    n.Some? && n.value.Map? && Keys(n.value.entries) == ks
  }

  /**
   * Every record on the way to an inserted value is a record afterwards. A
   * record that was already there keeps its keys in their order (the walk
   * reuses it); a token or a missing entry is replaced by a fresh record
   * holding only the next step (utils.ts:55).
   */
  lemma {:induction false} InsertMakesRecords(r: Record, path: seq<string>, k: string, v: Node, addr: seq<string>)
    requires addr != [] && IsPrefix(addr, path)
    ensures IsRecordWithKeys(Lookup(Insert(r, path, k, v), addr), KeysAfterPut(KeysOn(r, addr), (path + [k])[|addr|]))
    decreases |path|
  {
    if |addr| == 1 {
      assert addr == [path[0]];
      MakesRecordHere(r, path, k, v);
    } else {
      PrefixTail(addr, path);
      InsertMakesRecords(Child(r, path[0]), path[1..], k, v, addr[1..]);
      MakesRecordBelow(r, path, k, v, addr);
    }
  }

  /** The first step of an insertion's way is a record afterwards, keeping the keys of the record there before. */
  lemma MakesRecordHere(r: Record, path: seq<string>, k: string, v: Node)
    requires path != []
    ensures IsRecordWithKeys(Lookup(Insert(r, path, k, v), [path[0]]), KeysAfterPut(KeysOn(r, [path[0]]), (path + [k])[1]))
  {
    var c := Child(r, path[0]);
    InsertHead(r, path, k, v);
    InsertKeys(c, path[1..], k, v);
    assert (path[1..] + [k])[0] == (path + [k])[1];
    assert KeysOn(r, [path[0]]) == Keys(c);
  }

  /** A prefix of at least two steps stays a prefix once both lose their first step. */
  lemma PrefixTail(addr: seq<string>, path: seq<string>)
    requires |addr| >= 2 && IsPrefix(addr, path)
    ensures addr[0] == path[0] && IsPrefix(addr[1..], path[1..])
  {
    assert path[1..][..|addr| - 1] == path[..|addr|][1..];
  }

  /** Below the first step, an insertion's way reads as the insertion into the child record. */
  lemma MakesRecordBelow(r: Record, path: seq<string>, k: string, v: Node, addr: seq<string>)
    requires |addr| >= 2 && |path| >= |addr| && addr[0] == path[0]
    ensures Lookup(Insert(r, path, k, v), addr) == Lookup(Insert(Child(r, path[0]), path[1..], k, v), addr[1..])
    ensures KeysOn(r, addr) == KeysOn(Child(r, path[0]), addr[1..])
    ensures (path[1..] + [k])[|addr| - 1] == (path + [k])[|addr|]
  {
    InsertHead(r, path, k, v);
    LookupThroughChild(r, addr);
    LookupThroughChild(Insert(r, path, k, v), addr);
  }

  // ------------------------------------------------------- well-formedness

  predicate UniqueKeys(r: Record)
  {
    forall i, j :: 0 <= i < j < |r| ==> r[i].0 != r[j].0
  }

  /** Every record in the document has each property name at most once, as a JavaScript object does. */
  predicate WellFormed(n: Node)
    decreases n
  {
    n.Map? ==> UniqueKeys(n.entries) && forall i :: 0 <= i < |n.entries| ==> WellFormed(n.entries[i].1)
  }

  lemma WellFormedTail(r: Record)
    requires r != [] && WellFormed(Map(r))
    ensures WellFormed(Map(r[1..])) && WellFormed(r[0].1) && r[0].0 !in Keys(r[1..])
  {
    forall i | 0 <= i < |r[1..]| ensures WellFormed(r[1..][i].1) {
      assert r[1..][i] == r[i + 1];
    }
  }

  /** A record with a new first entry is well formed when the entry's name is new and its value is well formed. */
  lemma ConsWellFormed(e: (string, Node), p: Record)
    requires WellFormed(Map(p)) && WellFormed(e.1) && e.0 !in Keys(p)
    ensures WellFormed(Map([e] + p))
  {
    var q := [e] + p;
    forall i, j | 0 <= i < j < |q| ensures q[i].0 != q[j].0 {
      if i == 0 {
        assert Keys(p)[j - 1] == q[j].0;
      } else {
        assert q[i] == p[i - 1] && q[j] == p[j - 1];
      }
    }
    forall i | 0 <= i < |q| ensures WellFormed(q[i].1) {
      if i > 0 {
        assert q[i] == p[i - 1];
      }
    }
  }

  lemma {:induction false} PutWellFormed(r: Record, k: string, v: Node)
    requires WellFormed(Map(r)) && WellFormed(v)
    ensures WellFormed(Map(Put(r, k, v)))
  {
    if r == [] {
      ConsWellFormed((k, v), []);
    } else {
      WellFormedTail(r);
      if r[0].0 != k {
        PutWellFormed(r[1..], k, v);
        PutKeys(r[1..], k, v);
        ConsWellFormed(r[0], Put(r[1..], k, v));
      } else {
        ConsWellFormed((k, v), r[1..]);
      }
    }
  }

  lemma ChildWellFormed(r: Record, k: string)
    requires WellFormed(Map(r))
    ensures WellFormed(Map(Child(r, k)))
  {
    if Get(r, k).Some? && Get(r, k).value.Map? {
      GetFinds(r, k);
      var i :| 0 <= i < |r| && r[i] == (k, Get(r, k).value);
      assert WellFormed(r[i].1);
    }
  }

  /** Insertion keeps every record free of duplicate property names. */
  lemma {:induction false} InsertWellFormed(r: Record, path: seq<string>, k: string, v: Node)
    requires WellFormed(Map(r)) && WellFormed(v)
    ensures WellFormed(Map(Insert(r, path, k, v)))
    decreases |path|
  {
    if path == [] {
      PutWellFormed(r, k, v);
    } else {
      ChildWellFormed(r, path[0]);
      InsertWellFormed(Child(r, path[0]), path[1..], k, v);
      PutWellFormed(r, path[0], Map(Insert(Child(r, path[0]), path[1..], k, v)));
    }
  }

  // ------------------------------------------------------ the walking cursor

  /** Every step of `at` from `r` names a record: the cursor can stand at `at`. */
  predicate IsRecordPath(r: Record, at: seq<string>)
    decreases |at|
  {
    at == [] || (Get(r, at[0]).Some? && Get(r, at[0]).value.Map? && IsRecordPath(Get(r, at[0]).value.entries, at[1..]))
  }

  /** The record the cursor `node` denotes when it stands at address `at`. */
  function Cursor(r: Record, at: seq<string>): Record
    requires IsRecordPath(r, at)
    decreases |at|
  {
    if at == [] then r else Cursor(Get(r, at[0]).value.entries, at[1..])
  }

  /** `node[k] = v` through a cursor standing at `at`: the assignment lands in that nested record. */
  function PutAt(r: Record, at: seq<string>, k: string, v: Node): Record
    requires IsRecordPath(r, at)
    decreases |at|
  {
    if at == [] then Put(r, k, v)
    else Put(r, at[0], Map(PutAt(Get(r, at[0]).value.entries, at[1..], k, v)))
  }

  /** Where every step already names a record, assigning through the cursor is the specified insertion. */
  lemma {:induction false} PutAtIsInsert(r: Record, at: seq<string>, k: string, v: Node)
    requires IsRecordPath(r, at)
    ensures PutAt(r, at, k, v) == Insert(r, at, k, v)
    decreases |at|
  {
    if at != [] {
      PutAtIsInsert(Get(r, at[0]).value.entries, at[1..], k, v);
    }
  }

  /** One step of the walk when `at + [x]` already names a record: the cursor simply moves. */
  lemma {:induction false} StepIntoRecord(r: Record, at: seq<string>, x: string)
    requires IsRecordPath(r, at)
    requires Get(Cursor(r, at), x).Some? && Get(Cursor(r, at), x).value.Map?
    ensures IsRecordPath(r, at + [x])
    decreases |at|
  {
    if at != [] {
      StepIntoRecord(Get(r, at[0]).value.entries, at[1..], x);
      assert (at + [x])[1..] == at[1..] + [x];
    }
  }

  /** After `node[x] = {}` through a cursor at `at`, the cursor can step to `at + [x]`. */
  lemma {:induction false} StepIntoFreshRecord(r: Record, at: seq<string>, x: string)
    requires IsRecordPath(r, at)
    ensures IsRecordPath(PutAt(r, at, x, Map([])), at + [x])
    decreases |at|
  {
    if at == [] {
      PutGet(r, x, Map([]), x);
    } else {
      var e := Get(r, at[0]).value.entries;
      StepIntoFreshRecord(e, at[1..], x);
      assert (at + [x])[1..] == at[1..] + [x];
      PutGet(r, at[0], Map(PutAt(e, at[1..], x, Map([]))), at[0]);
    }
  }

  /** Replacing a missing entry or a token under `x` by an empty record does not change an insertion through `x`. */
  lemma FreshRecordHere(r: Record, x: string, path: seq<string>, k: string, v: Node)
    requires !(Get(r, x).Some? && Get(r, x).value.Map?)
    requires path != [] && path[0] == x
    ensures Insert(Put(r, x, Map([])), path, k, v) == Insert(r, path, k, v)
  {
    PutGet(r, x, Map([]), x);
    assert Child(Put(r, x, Map([])), x) == [] == Child(r, x);
    PutPut(r, x, Map([]), Map(Insert([], path[1..], k, v)));
  }

  /**
   * One step of the walk when `at + [x]` is missing or holds a token: after
   * `node[x] = {}` the pending insertion ends as it would have without the step.
   */
  lemma {:induction false} FreshRecordKeepsInsert(r: Record, at: seq<string>, x: string, path: seq<string>, k: string, v: Node)
    requires IsRecordPath(r, at)
    requires !(Get(Cursor(r, at), x).Some? && Get(Cursor(r, at), x).value.Map?)
    requires |path| > |at| && path[..|at|] == at && path[|at|] == x
    ensures Insert(PutAt(r, at, x, Map([])), path, k, v) == Insert(r, path, k, v)
    decreases |at|
  {
    if at == [] {
      FreshRecordHere(r, x, path, k, v);
    } else {
      var e := Get(r, at[0]).value.entries;
      assert path[0] == at[0];
      assert path[1..][..|at| - 1] == at[1..];
      FreshRecordKeepsInsert(e, at[1..], x, path[1..], k, v);
      var inner := PutAt(e, at[1..], x, Map([]));
      PutGet(r, at[0], Map(inner), at[0]);
      assert Child(PutAt(r, at, x, Map([])), at[0]) == inner;
      PutPut(r, at[0], Map(inner), Map(Insert(inner, path[1..], k, v)));
    }
  }

  /** The first `j + 1` steps of a path are its first `j` steps and then step `j`. */
  lemma StepsTaken(path: seq<string>, j: nat)
    requires j < |path|
    ensures path[..j + 1] == path[..j] + [path[j]]
  {
  }

  /**
   * One step of the walk (utils.ts:54-56): the cursor at `at` reuses the
   * record at `x`, or first sets `node[x] = {}`; either way it can then
   * stand at `at + [x]` and the pending insertion ends as before.
   */
  lemma WalkStep(r: Record, at: seq<string>, x: string, path: seq<string>, k: string, v: Node, r': Record)
    requires IsRecordPath(r, at)
    requires |path| > |at| && path[..|at|] == at && path[|at|] == x
    requires r' == if Get(Cursor(r, at), x).Some? && Get(Cursor(r, at), x).value.Map? then r else PutAt(r, at, x, Map([]))
    ensures IsRecordPath(r', at + [x])
    ensures Insert(r', path, k, v) == Insert(r, path, k, v)
  {
    if Get(Cursor(r, at), x).Some? && Get(Cursor(r, at), x).value.Map? {
      StepIntoRecord(r, at, x);
    } else {
      FreshRecordKeepsInsert(r, at, x, path, k, v);
      StepIntoFreshRecord(r, at, x);
    }
  }

  // ------------------------------------------------- a run of insertions

  /** One pending assignment: walk `location`, then set `key` to `value`. */
  datatype Write = Write(location: seq<string>, key: string, value: Node)

  /** The address a write assigns. */
  function Target(w: Write): seq<string>
  {
    w.location + [w.key]
  }

  /** The record after the present writes are performed in order, starting from `{}`; an absent write is passed over. */
  function Apply(ws: seq<Option<Write>>): Record
    decreases |ws|
  {
    if ws == [] then []
    else
      var before := Apply(ws[..|ws| - 1]);
      match ws[|ws| - 1]
      case None => before
      case Some(w) => Insert(before, w.location, w.key, w.value)
  }

  /** Performing one more write of the run. */
  lemma ApplyNext(ws: seq<Option<Write>>, i: nat)
    requires i < |ws|
    ensures ws[i].None? ==> Apply(ws[..i + 1]) == Apply(ws[..i])
    ensures ws[i].Some? ==>
              Apply(ws[..i + 1]) == Insert(Apply(ws[..i]), ws[i].value.location, ws[i].value.key, ws[i].value.value)
  {
    assert ws[..i + 1][..i] == ws[..i];
  }

  /** The last write is found where it assigned. */
  lemma ApplyWriterStep(ws: seq<Option<Write>>)
    requires ws != [] && ws[|ws| - 1].Some?
    ensures Lookup(Apply(ws), Target(ws[|ws| - 1].value)) == Some(ws[|ws| - 1].value.value)
  {
    var w := ws[|ws| - 1].value;
    InsertWrites(Apply(ws[..|ws| - 1]), w.location, w.key, w.value);
  }

  /** An address the last write's target does not meet reads as before the last write. */
  lemma ApplyKeepStep(ws: seq<Option<Write>>, a: seq<string>)
    requires ws != [] && a != []
    requires ws[|ws| - 1].Some? ==> !Comparable(Target(ws[|ws| - 1].value), a)
    ensures Lookup(Apply(ws), a) == Lookup(Apply(ws[..|ws| - 1]), a)
  {
    if ws[|ws| - 1].Some? {
      var w := ws[|ws| - 1].value;
      assert !Comparable(a, w.location + [w.key]);
      InsertKeepsOthers(Apply(ws[..|ws| - 1]), w.location, w.key, w.value, a);
    }
  }

  /**
   * Last write wins: a write whose target no later write meets (equal to
   * it, on its way, or below it) is found there, whatever came before it.
   */
  lemma {:induction false} ApplyLastWriteWins(ws: seq<Option<Write>>, j: nat)
    requires j < |ws| && ws[j].Some?
    requires forall m :: j < m < |ws| && ws[m].Some? ==> !Comparable(Target(ws[m].value), Target(ws[j].value))
    ensures Lookup(Apply(ws), Target(ws[j].value)) == Some(ws[j].value.value)
    decreases |ws|
  {
    if j == |ws| - 1 {
      ApplyWriterStep(ws);
    } else {
      var init := ws[..|ws| - 1];
      assert forall m :: j <= m < |init| ==> init[m] == ws[m];
      ApplyLastWriteWins(init, j);
      ApplyKeepStep(ws, Target(ws[j].value));
    }
  }

  /** Which present write is found at `addr` after the last write: the last one itself, or one found there before. */
  lemma ApplyLeafStep(ws: seq<Option<Write>>, addr: seq<string>, t: string)
    requires ws != [] && addr != []
    requires ws[|ws| - 1].Some? ==> ws[|ws| - 1].value.value.Leaf?
    requires Lookup(Apply(ws), addr) == Some(Leaf(t))
    ensures (ws[|ws| - 1].Some? && Target(ws[|ws| - 1].value) == addr && ws[|ws| - 1].value.value == Leaf(t))
            || Lookup(Apply(ws[..|ws| - 1]), addr) == Some(Leaf(t))
  {
    var before := Apply(ws[..|ws| - 1]);
    if ws[|ws| - 1].Some? {
      var w := ws[|ws| - 1].value;
      var a := w.location + [w.key];
      if addr == a {
        InsertWrites(before, w.location, w.key, w.value);
      } else if !Comparable(addr, a) {
        InsertKeepsOthers(before, w.location, w.key, w.value, addr);
      } else if IsPrefix(a, addr) {
        InsertClearsBelow(before, w.location, w.key, w.value.token, addr);
      } else {
        assert IsPrefix(addr, w.location) by {
          assert w.location[..|addr|] == a[..|addr|];
        }
        InsertMakesRecords(before, w.location, w.key, w.value, addr);
      }
    }
  }

  /** Every token in the record was put there by a write that assigned exactly that address. */
  lemma {:induction false} ApplyLeaves(ws: seq<Option<Write>>, addr: seq<string>, t: string)
    requires addr != []
    requires forall m :: 0 <= m < |ws| && ws[m].Some? ==> ws[m].value.value.Leaf?
    requires Lookup(Apply(ws), addr) == Some(Leaf(t))
    ensures exists j :: 0 <= j < |ws| && ws[j].Some? && Target(ws[j].value) == addr && ws[j].value.value == Leaf(t)
    decreases |ws|
  {
    if ws == [] {
      LookupEmpty(addr);
    } else {
      var last := |ws| - 1;
      ApplyLeafStep(ws, addr, t);
      if !(ws[last].Some? && Target(ws[last].value) == addr && ws[last].value.value == Leaf(t)) {
        var init := ws[..last];
        assert forall m :: 0 <= m < |init| ==> init[m] == ws[m];
        ApplyLeaves(init, addr, t);
      }
    }
  }

  /** Writes of well-formed values build a record without duplicate property names. */
  lemma {:induction false} ApplyWellFormed(ws: seq<Option<Write>>)
    requires forall m :: 0 <= m < |ws| && ws[m].Some? ==> WellFormed(ws[m].value.value)
    ensures WellFormed(Map(Apply(ws)))
    decreases |ws|
  {
    if ws != [] {
      var init := ws[..|ws| - 1];
      assert forall m :: 0 <= m < |init| ==> init[m] == ws[m];
      ApplyWellFormed(init);
      if ws[|ws| - 1].Some? {
        var w := ws[|ws| - 1].value;
        InsertWellFormed(Apply(init), w.location, w.key, w.value);
      }
    }
  }

  /** The record stays `{}` exactly when no write is present. */
  lemma {:induction false} ApplyEmptyIff(ws: seq<Option<Write>>)
    ensures Apply(ws) == [] <==> forall m :: 0 <= m < |ws| ==> ws[m].None?
    decreases |ws|
  {
    if ws != [] {
      var init := ws[..|ws| - 1];
      assert forall m :: 0 <= m < |init| ==> init[m] == ws[m];
      ApplyEmptyIff(init);
      if ws[|ws| - 1].Some? {
        var w := ws[|ws| - 1].value;
        var k0 := (w.location + [w.key])[0];
        InsertKeys(Apply(init), w.location, w.key, w.value);
        assert k0 in KeysAfterPut(Keys(Apply(init)), k0);
        assert |Keys(Apply(ws))| > 0;
      }
    }
  }
}
