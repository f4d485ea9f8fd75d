/** Namespaces: a graph of objects that only grows. */
module Namespaces {
  import opened Identifiers

  const SUPER_IDENTIFIER := "super"

  /** Commands are opaque here; what matters is which one is found. */
  datatype Command = Command(id: nat)

  datatype Entry = Item(command: Command) | Sub(ns: Namespace)

  /** What a lookup gives: something, nothing, or an exception. */
  datatype Lookup = Found(entry: Entry) | Missing | Thrown

  /** An identifier without the first step of its path. */
  function Inner(id: Identifier): Identifier
    requires id.path != []
  {
    id.(path := id.path[1..])
  }

  class Namespace {
    const name: string
    const isRoot: bool
    var parent: Namespace?
    var children: map<string, Entry>

    constructor (name: string)
      ensures this.name == name && !isRoot && parent == null && children == map[]
    {
      this.name := name;
      isRoot := false;
      parent := null;
      children := map[];
    }

    constructor Root()
      ensures name == "__root__" && isRoot && parent == null && children == map[]
    {
      name := "__root__";
      isRoot := true;
      parent := null;
      children := map[];
    }

    /** A key that may be bound: not taken, and not the name of the parent link. */
    predicate Free(key: string)
      reads this
    {
      key !in children && key != SUPER_IDENTIFIER
    }

    /** Binds a namespace that has no parent yet, and becomes its parent. False when
        one of the assertions fails; then nothing has changed. */
    method AddChildNamespace(key: string, child: Namespace) returns (ok: bool)
      modifies this, child
      ensures ok <==> old(!isRoot && Free(key) && child.parent == null)
      ensures ok ==> child.parent == this && children == old(children)[key := Sub(child)]
      ensures ok && child != this ==> parent == old(parent) && child.children == old(child.children)
      ensures !ok ==> unchanged(this, child)
    {
      if isRoot || key in children || key == SUPER_IDENTIFIER || child.parent != null {
        return false;
      }
      child.parent := this;
      children := children[key := Sub(child)];
      ok := true;
    }

    method AddChildItem(key: string, child: Command) returns (ok: bool)
      modifies this`children
      ensures ok <==> old(Free(key))
      ensures children == if ok then old(children)[key := Item(child)] else old(children)
    {
      if key in children || key == SUPER_IDENTIFIER {
        return false;
      }
      children := children[key := Item(child)];
      ok := true;
    }

    /** Binds something that lives elsewhere; a namespace must have a parent. */
    method AddUsing(key: string, child: Entry) returns (ok: bool)
      modifies this`children
      ensures ok <==> old(Free(key) && (child.Sub? ==> child.ns.parent != null))
      ensures children == if ok then old(children)[key := child] else old(children)
    {
      if key in children || key == SUPER_IDENTIFIER || (child.Sub? && child.ns.parent == null) {
        return false;
      }
      children := children[key := child];
      ok := true;
    }

    /** Only roots have this one: it binds a namespace without becoming its parent. */
    method RootAddChildNamespace(key: string, child: Namespace) returns (ok: bool)
      requires isRoot
      modifies this`children
      ensures ok <==> old(Free(key))
      ensures children == if ok then old(children)[key := Sub(child)] else old(children)
    {
      if key in children || key == SUPER_IDENTIFIER {
        return false;
      }
      children := children[key := Sub(child)];
      ok := true;
    }

    /** Where one step of a path leads, if it leads to a namespace. */
    function StepTo(sub: string): Namespace?
      reads this
    {
      if sub == SUPER_IDENTIFIER then parent
      else if sub in children && children[sub].Sub? then children[sub].ns
      else null
    }

    /** A step that leads to no namespace throws; so does an absolute identifier
        anywhere but in a root. */
    function LookUp(id: Identifier): Lookup
      reads *
      decreases |id.path|, 0
    {
      if !isRoot && id.absolute then Thrown
      else if id.path == [] then
        if id.name in children then Found(children[id.name]) else Missing
      else
        if StepTo(id.path[0]) == null then Thrown else StepTo(id.path[0]).LookUpItem(Inner(id))
    }

    /** Finding a namespace where an item is wanted throws. */
    function LookUpItem(id: Identifier): Lookup
      reads *
      decreases |id.path|, 1
    {
      if LookUp(id).Found? && LookUp(id).entry.Sub? then Thrown else LookUp(id)
    }
  }

  /** One step of a path: to the parent, or to a namespace bound to that key. */
  predicate Leads(a: Namespace, step: string, b: Namespace)
    reads a
  {
    if step == "super" then a.parent == b else step in a.children && a.children[step] == Sub(b)
  }

  /** A walk from `n` along the path of an identifier: one namespace for every step, and
      nothing but roots if the identifier is absolute. */
  predicate Walk(n: Namespace, ns: seq<Namespace>, id: Identifier)
    reads *
  {
    && |ns| == |id.path| + 1 && ns[0] == n
    && (forall i :: 0 <= i < |id.path| ==> Leads(ns[i], id.path[i], ns[i + 1]))
    && (id.absolute ==> forall i :: 0 <= i < |ns| ==> ns[i].isRoot)
  }

  /** What is looked up at the end of a walk. */
  lemma {:induction false} WalkFinds(n: Namespace, ns: seq<Namespace>, id: Identifier)
    requires Walk(n, ns, id)
    ensures var last := ns[|ns| - 1];
            n.LookUp(id) ==
            if id.name !in last.children then Missing
            else if id.path != [] && last.children[id.name].Sub? then Thrown
            else Found(last.children[id.name])
    decreases |id.path|
  {
    if id.path != [] {
      var rest := ns[1..];
      assert Leads(ns[0], id.path[0], ns[0 + 1]);
      forall i | 0 <= i < |id.path[1..]|
        ensures Leads(rest[i], id.path[1..][i], rest[i + 1])
      {
        assert Leads(ns[i + 1], id.path[i + 1], ns[i + 1 + 1]);
      }
      WalkFinds(ns[1], rest, Inner(id));
    }
  }

  /** A lookup that does not throw has walked the path. */
  lemma {:induction false} LookUpWalks(n: Namespace, id: Identifier) returns (ns: seq<Namespace>)
    requires !n.LookUp(id).Thrown?
    ensures Walk(n, ns, id)
    decreases |id.path|
  {
    if id.path == [] {
      ns := [n];
    } else {
      var rest := LookUpWalks(n.StepTo(id.path[0]), Inner(id));
      ns := [n] + rest;
      forall i | 0 <= i < |id.path|
        ensures Leads(ns[i], id.path[i], ns[i + 1])
      {
        if i > 0 {
          assert Leads(rest[i - 1], id.path[1..][i - 1], rest[i - 1 + 1]);
        }
      }
    }
  }

  /** What a lookup finds, and when it finds nothing: there is a walk along the path, and
      the name is bound at its end, or is not. With a path, only items are found. */
  lemma LookUpExactly(n: Namespace, id: Identifier, e: Entry)
    ensures n.LookUp(id) == Found(e) <==>
            exists ns: seq<Namespace> :: Walk(n, ns, id) && id.name in ns[|ns| - 1].children
                         && ns[|ns| - 1].children[id.name] == e && (id.path != [] ==> e.Item?)
    ensures n.LookUp(id) == Missing <==>
            exists ns: seq<Namespace> :: Walk(n, ns, id) && id.name !in ns[|ns| - 1].children
  {
    hide Walk;
    if !n.LookUp(id).Thrown? {
      var ns := LookUpWalks(n, id);
      WalkEnds(n, ns, id);
      WalkFinds(n, ns, id);
    }
    forall ns: seq<Namespace> | Walk(n, ns, id)
      ensures |ns| > 0
      ensures n.LookUp(id) ==
              if id.name !in ns[|ns| - 1].children then Missing
              else if id.path != [] && ns[|ns| - 1].children[id.name].Sub? then Thrown
              else Found(ns[|ns| - 1].children[id.name])
    {
      WalkEnds(n, ns, id);
      WalkFinds(n, ns, id);
    }
  }

  lemma WalkEnds(n: Namespace, ns: seq<Namespace>, id: Identifier)
    requires Walk(n, ns, id)
    ensures |ns| > 0
  {
  }

  /** The state of one namespace, and of a whole world of them. */
  datatype Record = Record(isRoot: bool, parent: Namespace?, children: map<string, Entry>)

  type Graph = map<Namespace, Record>

  ghost function Snapshot(world: set<Namespace>): Graph
    reads world
  {
    map n | n in world :: Record(n.isRoot, n.parent, n.children)
  }

  /** What every operation keeps of every namespace: its bindings and its parent. */
  ghost predicate Extends(g: Graph, g': Graph) {
    && g.Keys == g'.Keys
    && forall n :: n in g ==> RecordExtends(g[n], g'[n])
  }

  predicate RecordExtends(r: Record, r': Record) {
    && r'.isRoot == r.isRoot
    && (r.parent != null ==> r'.parent == r.parent)
    && forall key :: key in r.children ==> key in r'.children && r'.children[key] == r.children[key]
  }

  lemma ExtendsTransitive(a: Graph, b: Graph, c: Graph)
    requires Extends(a, b) && Extends(b, c)
    ensures Extends(a, c)
  {
    forall n | n in a
      ensures RecordExtends(a[n], c[n])
    {
      assert RecordExtends(a[n], b[n]) && RecordExtends(b[n], c[n]);
    }
  }

  function Step(r: Record, sub: string): Namespace? {
    if sub == SUPER_IDENTIFIER then r.parent
    else if sub in r.children && r.children[sub].Sub? then r.children[sub].ns
    else null
  }

  /** Lookup in a recorded world; a step out of the world is not followed. */
  ghost function LookIn(g: Graph, n: Namespace, id: Identifier): Lookup
    requires n in g
    decreases |id.path|
  {
    if !g[n].isRoot && id.absolute then Thrown
    else if id.path == [] then
      if id.name in g[n].children then Found(g[n].children[id.name]) else Missing
    else
      var loc := Step(g[n], id.path[0]);
      if loc == null || loc !in g then Thrown
      else
        var thing := LookIn(g, loc, Inner(id));
        if thing.Found? && thing.entry.Sub? then Thrown else thing
  }

  /** Nothing reachable leaves the world. */
  ghost predicate Closed(g: Graph) {
    forall n :: n in g ==> ClosedRecord(g[n], g.Keys)
  }

  ghost predicate ClosedRecord(r: Record, world: set<Namespace>) {
    && (r.parent != null ==> r.parent in world)
    && forall key :: key in r.children && r.children[key].Sub? ==> r.children[key].ns in world
  }

  /** `super` is never bound, and a parent has an entry for its child. */
  ghost predicate Consistent(g: Graph) {
    forall n :: n in g ==>
      && SUPER_IDENTIFIER !in g[n].children
      && (g[n].parent != null ==> HasEntry(g, g[n].parent, n))
  }

  ghost predicate HasEntry(g: Graph, parent: Namespace, child: Namespace) {
    parent in g && exists key :: key in g[parent].children && g[parent].children[key] == Sub(child)
  }

  /** Lookup in the objects is lookup in their record. */
  lemma {:induction false} LookupInSnapshot(world: set<Namespace>, n: Namespace, id: Identifier)
    requires n in world && Closed(Snapshot(world))
    ensures n.LookUp(id) == LookIn(Snapshot(world), n, id)
    decreases |id.path|
  {
    if id.path != [] && n.StepTo(id.path[0]) != null {
      assert ClosedRecord(Snapshot(world)[n], world);
      LookupInSnapshot(world, n.StepTo(id.path[0]), Inner(id));
    }
  }

  /** What has once been found is found in every later world, whatever the path. */
  lemma {:induction false} FoundIsStable(g: Graph, g': Graph, n: Namespace, id: Identifier)
    requires n in g && Extends(g, g')
    ensures LookIn(g, n, id).Found? ==> LookIn(g', n, id) == LookIn(g, n, id)
    decreases |id.path|
  {
    assert RecordExtends(g[n], g'[n]);
    if LookIn(g, n, id).Found? && id.path != [] {
      var loc := Step(g[n], id.path[0]);
      assert Step(g'[n], id.path[0]) == loc;
      FoundIsStable(g, g', loc, Inner(id));
    }
  }

  /** A binding of one of the four operations. */
  datatype Op =
    | AddNamespace(target: Namespace, key: string, child: Namespace)
    | AddItem(target: Namespace, key: string, command: Command)
    | AddUse(target: Namespace, key: string, entry: Entry)
    | RootAdd(target: Namespace, key: string, child: Namespace)

  /** The operation is about namespaces of the world, and is one its target has. */
  predicate InWorld(op: Op, world: set<Namespace>) {
    && op.target in world
    && match op
       case AddNamespace(_, _, child) => child in world
       case AddItem(_, _, _) => true
       case AddUse(_, _, entry) => entry.Sub? ==> entry.ns in world
       case RootAdd(target, _, child) => target.isRoot && child in world
  }

  predicate FreeIn(r: Record, key: string) {
    key !in r.children && key != SUPER_IDENTIFIER
  }

  /** The assertions of an operation hold. */
  ghost predicate Allowed(op: Op, g: Graph)
    requires InWorld(op, g.Keys)
  {
    && FreeIn(g[op.target], op.key)
    && (op.AddNamespace? ==> !g[op.target].isRoot && g[op.child].parent == null)
    && (op.AddUse? && op.entry.Sub? ==> g[op.entry.ns].parent != null)
  }

  /** What an operation binds. */
  function Bound(op: Op): Entry {
    match op
    case AddNamespace(_, _, child) => Sub(child)
    case AddItem(_, _, command) => Item(command)
    case AddUse(_, _, entry) => entry
    case RootAdd(_, _, child) => Sub(child)
  }

  function Bind(r: Record, key: string, entry: Entry): Record {
    r.(children := r.children[key := entry])
  }

  /** An operation on a recorded world: none if it is not allowed, otherwise one new
      binding, and for a child namespace its parent. */
  ghost function Effect(op: Op, g: Graph): Graph
    requires InWorld(op, g.Keys)
  {
    if !Allowed(op, g) then g
    else
      var g1 := if op.AddNamespace? then g[op.child := g[op.child].(parent := op.target)] else g;
      g1[op.target := Bind(g1[op.target], op.key, Bound(op))]
  }

  lemma EffectExtends(op: Op, g: Graph)
    requires InWorld(op, g.Keys)
    ensures Extends(g, Effect(op, g))
  {
  }

  lemma EffectKeepsClosed(op: Op, g: Graph)
    requires InWorld(op, g.Keys) && Closed(g)
    ensures Closed(Effect(op, g))
  {
    var g' := Effect(op, g);
    forall n | n in g'
      ensures ClosedRecord(g'[n], g'.Keys)
    {
      assert ClosedRecord(g[n], g.Keys);
    }
  }

  lemma EffectKeepsConsistent(op: Op, g: Graph)
    requires InWorld(op, g.Keys) && Consistent(g)
    ensures Consistent(Effect(op, g))
  {
    var g' := Effect(op, g);
    forall n | n in g' && g'[n].parent != null
      ensures HasEntry(g', g'[n].parent, n)
    {
      if g[n].parent == null {
        assert g'[op.target].children[op.key] == Sub(n);
      } else {
        var p := g[n].parent;
        var key :| key in g[p].children && g[p].children[key] == Sub(n);
        assert key in g'[p].children && g'[p].children[key] == Sub(n);
      }
    }
  }

  /** One operation on the objects is its effect on their record. */
  method Apply(op: Op, world: set<Namespace>) returns (ok: bool)
    requires InWorld(op, world)
    modifies world
    ensures ok == old(Allowed(op, Snapshot(world)))
    ensures Snapshot(world) == Effect(op, old(Snapshot(world)))
    ensures ok ==> op.target.LookUp(Identifier(false, [], op.key)) == Found(Bound(op))
  {
    match op
    case AddNamespace(target, key, child) => ok := target.AddChildNamespace(key, child);
    case AddItem(target, key, command) => ok := target.AddChildItem(key, command);
    case AddUse(target, key, entry) => ok := target.AddUsing(key, entry);
    case RootAdd(target, key, child) => ok := target.RootAddChildNamespace(key, child);
  }

  /** Any sequence of operations, some of which may fail: the world stays
      consistent, and whatever could be found before is found after. */
  method Run(ops: seq<Op>, world: set<Namespace>)
    requires Closed(Snapshot(world)) && Consistent(Snapshot(world))
    requires forall k :: 0 <= k < |ops| ==> InWorld(ops[k], world)
    modifies world
    ensures Closed(Snapshot(world)) && Consistent(Snapshot(world))
    ensures forall n, id :: n in world && old(n.LookUp(id)).Found? ==> n.LookUp(id) == old(n.LookUp(id))
  {
    ghost var start := Snapshot(world);
    forall n, id | n in world
      ensures n.LookUp(id) == LookIn(start, n, id)
    {
      LookupInSnapshot(world, n, id);
    }
    for k := 0 to |ops|
      invariant Closed(Snapshot(world)) && Consistent(Snapshot(world)) && Extends(start, Snapshot(world))
    {
      ghost var before := Snapshot(world);
      var ok := Apply(ops[k], world);
      EffectExtends(ops[k], before);
      EffectKeepsClosed(ops[k], before);
      EffectKeepsConsistent(ops[k], before);
      ExtendsTransitive(start, before, Snapshot(world));
    }
    forall n, id | n in world && old(n.LookUp(id)).Found?
      ensures n.LookUp(id) == old(n.LookUp(id))
    {
      LookupInSnapshot(world, n, id);
      FoundIsStable(start, Snapshot(world), n, id);
    }
  }

  /** Down to a child and back up with `super` is no step at all. */
  lemma DownAndUp(n: Namespace, key: string, id: Identifier)
    requires key != SUPER_IDENTIFIER && key in n.children && n.children[key].Sub?
    requires n.children[key].ns.parent == n && !id.absolute
    ensures n.LookUp(id.(path := [key, SUPER_IDENTIFIER] + id.path)) == n.LookUpItem(id)
  {
    var long := id.(path := [key, SUPER_IDENTIFIER] + id.path);
    var child := n.children[key].ns;
    var mid := id.(path := [SUPER_IDENTIFIER] + id.path);
    assert long.path[1..] == mid.path && mid.path[1..] == id.path;
    assert child.LookUp(mid) == n.LookUpItem(id);
  }

  /** Every namespace on the way is a root. */
  predicate ThroughRoots(n: Namespace, path: seq<string>)
    reads *
    decreases |path|
  {
    && n.isRoot
    && (path == [] || n.StepTo(path[0]) == null || ThroughRoots(n.StepTo(path[0]), path[1..]))
  }

  /** A root hands the absolute flag on to where the first step leads, and only roots
      accept it. So an absolute identifier is looked up like a relative one when
      every namespace on its way is a root, and throws otherwise. */
  lemma {:induction false} AbsoluteLookupExactly(n: Namespace, id: Identifier)
    requires id.absolute
    ensures n.LookUp(id) == if ThroughRoots(n, id.path) then n.LookUp(id.(absolute := false)) else Thrown
    decreases |id.path|
  {
    if id.path != [] && n.StepTo(id.path[0]) != null {
      AbsoluteLookupExactly(n.StepTo(id.path[0]), Inner(id));
      assert Inner(id).(absolute := false) == Inner(id.(absolute := false));
    }
  }

  /** So below a root whose namespaces are ordinary ones, absolute paths find nothing. */
  lemma AbsolutePathsThrow(n: Namespace, id: Identifier)
    requires id.absolute && id.path != []
    requires n.StepTo(id.path[0]) != null ==> !n.StepTo(id.path[0]).isRoot
    ensures n.LookUp(id) == Thrown
  {
    AbsoluteLookupExactly(n, id);
  }
}
