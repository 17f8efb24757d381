/** Serialising one cell of an admin query result: a walk over a JavaScript object graph that may share
    and may loop, guarded by the set of objects on the active path. */
module AdminValues {
  import opened Text

  /** A JavaScript value; objects are references into the heap. `Unsupported` is anything the serialiser
      refuses: undefined, functions, symbols, bigints, class instances. */
  datatype Value =
    | Null
    | Str(s: string)
    | Num(n: real)
    | Bool(b: bool)
    | Date(iso: string)
    | Ref(id: nat)
    | Unsupported

  datatype Field = Field(key: string, value: Value)

  datatype Object = Array(items: seq<Value>) | Plain(fields: seq<Field>)

  type Heap = map<nat, Object>

  datatype Member = Member(key: string, tree: Tree)

  datatype Tree =
    | TNull
    | TStr(s: string)
    | TNum(n: real)
    | TBool(b: bool)
    | TArray(items: seq<Tree>)
    | TObject(members: seq<Member>)

  datatype Step = Index(k: nat) | Key(name: string)

  datatype Failure = Circular(path: seq<Step>) | UnsupportedType(path: seq<Step>)

  /** toISOString drops nothing; the serialiser then writes whole seconds without ".000". */
  function DateText(iso: string): string {
    if |iso| >= 5 && iso[|iso| - 5..] == ".000Z" then iso[..|iso| - 5] + "Z" else iso
  }

  /** Whole seconds lose exactly their ".000"; other dates are written as they are. */
  lemma DateTextMeans(seconds: string, iso: string)
    ensures DateText(seconds + ".000Z") == seconds + "Z"
    ensures (forall before: string :: iso != before + ".000Z") ==> DateText(iso) == iso
  {
    var whole := seconds + ".000Z";
    assert whole[|whole| - 5..] == ".000Z" && whole[..|whole| - 5] == seconds;
    if |iso| >= 5 && iso[|iso| - 5..] == ".000Z" {
      assert iso == iso[..|iso| - 5] + ".000Z";
    }
  }

  predicate InHeap(heap: Heap, v: Value) {
    v.Ref? ==> v.id in heap
  }

  function Children(o: Object): (r: seq<Value>)
    ensures |r| == if o.Array? then |o.items| else |o.fields|
  {
    match o
    case Array(items) => items
    case Plain(fields) => seq(|fields|, k requires 0 <= k < |fields| => fields[k].value)
  }

  function StepTo(o: Object, k: nat): Step
    requires k < |Children(o)|
  {
    match o
    case Array(_) => Index(k)
    case Plain(fields) => Key(fields[k].key)
  }

  predicate Closed(heap: Heap) {
    forall id, k | id in heap && 0 <= k < |Children(heap[id])| :: InHeap(heap, Children(heap[id])[k])
  }

  /** `t` is the full tree unfolding of `v`. */
  ghost predicate Unfolds(heap: Heap, v: Value, t: Tree)
    decreases t
  {
    match v
    case Null => t == TNull
    case Str(s) => t == TStr(s)
    case Num(n) => t == TNum(n)
    case Bool(b) => t == TBool(b)
    case Date(iso) => t == TStr(DateText(iso))
    case Unsupported => false
    case Ref(id) =>
      id in heap &&
      match heap[id]
      case Array(items) =>
        t.TArray? && |t.items| == |items| && forall k | 0 <= k < |items| :: Unfolds(heap, items[k], t.items[k])
      case Plain(fields) =>
        t.TObject? && |t.members| == |fields| &&
        forall k | 0 <= k < |fields| ::
          t.members[k].key == fields[k].key && Unfolds(heap, fields[k].value, t.members[k].tree)
  }

  /** Following `steps` from `v` leads to `w`. */
  ghost predicate At(heap: Heap, v: Value, steps: seq<Step>, w: Value)
    decreases |steps|
  {
    if steps == [] then v == w
    else
      v.Ref? && v.id in heap &&
      exists k :: 0 <= k < |Children(heap[v.id])| && StepTo(heap[v.id], k) == steps[0]
                  && At(heap, Children(heap[v.id])[k], steps[1..], w)
  }

  ghost predicate Reaches(heap: Heap, a: nat, v: Value) {
    exists steps :: steps != [] && At(heap, Ref(a), steps, v)
  }

  /** No path from `v` meets an unsupported value or an object that lies on a cycle. */
  ghost predicate Clean(heap: Heap, v: Value) {
    forall steps, w | At(heap, v, steps, w) :: w != Unsupported && (w.Ref? ==> !Reaches(heap, w.id, w))
  }

  /** Assigning to the key "__proto__" of an object literal sets its prototype and stores no member. */
  const PROTO_KEY := "__proto__"

  function Visible(t: Tree): Tree {
    match t
    case TArray(items) => TArray(VisibleItems(items))
    case TObject(members) => TObject(VisibleMembers(members))
    case _ => t
  }

  function VisibleItems(items: seq<Tree>): seq<Tree> {
    if items == [] then [] else VisibleItems(items[..|items| - 1]) + [Visible(items[|items| - 1])]
  }

  function VisibleMembers(members: seq<Member>): seq<Member> {
    if members == [] then []
    else
      var last := members[|members| - 1];
      var before := VisibleMembers(members[..|members| - 1]);
      if last.key == PROTO_KEY then before else before + [Member(last.key, Visible(last.tree))]
  }

  /** The name of the lost key, and that any other key stays. */
  lemma OneMemberIsLost(key: string, t: Tree)
    ensures Visible(TObject([Member(key, t)])) == if key == "__proto__" then TObject([]) else TObject([Member(key, Visible(t))])
  {
    var members := [Member(key, t)];
    assert members[..0] == [];
    assert VisibleMembers([]) == [];
  }

  predicate NamesProto(t: Tree) {
    match t
    case TArray(items) => exists k | 0 <= k < |items| :: NamesProto(items[k])
    case TObject(members) => exists k | 0 <= k < |members| :: members[k].key == PROTO_KEY || NamesProto(members[k].tree)
    case _ => false
  }

  class ActiveObjects {
    var members: set<nat>

    constructor ()
      ensures members == {}
    {
      members := {};
    }
  }

  /** Every object on the active path leads, in one or more steps, to the value being visited. */
  ghost predicate Ancestors(heap: Heap, active: set<nat>, v: Value) {
    active <= heap.Keys && forall a | a in active :: Reaches(heap, a, v)
  }

  ghost predicate Explains(heap: Heap, v: Value, active: set<nat>, path: seq<Step>, failure: Failure) {
    path <= failure.path &&
    var steps := failure.path[|path|..];
    match failure
    case UnsupportedType(_) => At(heap, v, steps, Unsupported)
    case Circular(_) => exists id :: At(heap, v, steps, Ref(id)) && Reaches(heap, id, Ref(id))
  }

  method SerializeAdminQueryValue(heap: Heap, value: Value, valuePath: seq<Step>, active: ActiveObjects)
    returns (r: Result<Tree, Failure>, ghost full: Tree)
    requires Closed(heap) && InHeap(heap, value)
    requires Ancestors(heap, active.members, value)
    modifies active
    ensures r.Ok? ==> Unfolds(heap, value, full) && r.value == Visible(full) && active.members == old(active.members)
    ensures r.Err? ==> Explains(heap, value, old(active.members), valuePath, r.error)
    decreases heap.Keys - active.members
  {
    hide At, Reaches, Explains, Ancestors, StepTo, VisibleItems, VisibleMembers;
    full := TNull;
    FailsHere(heap, value, active.members, valuePath);
    match value {
      case Null => return Ok(TNull), TNull;
      case Str(s) => return Ok(TStr(s)), TStr(s);
      case Num(n) => return Ok(TNum(n)), TNum(n);
      case Bool(b) => return Ok(TBool(b)), TBool(b);
      case Date(iso) => return Ok(TStr(DateText(iso))), TStr(DateText(iso));
      case Unsupported =>
        return Err(UnsupportedType(valuePath)), TNull;
      case Ref(id) =>
        if id in active.members {
          return Err(Circular(valuePath)), TNull;
        }
        ghost var before := active.members;
        active.members := active.members + {id};
        match heap[id] {
          case Array(items) =>
            var serialized: seq<Tree> := [];
            VisibleEmpty();
            ghost var trees: seq<Tree> := [];
            for k := 0 to |items|
              invariant active.members == before + {id}
              invariant |trees| == k && serialized == VisibleItems(trees)
              invariant forall j | 0 <= j < k :: Unfolds(heap, items[j], trees[j])
            {
              ChildHasAncestors(heap, before, id, k);
              ChildStep(heap[id], k);
              var item, tree := SerializeAdminQueryValue(heap, items[k], valuePath + [Index(k)], active);
              if item.Err? {
                FailureBelow(heap, id, k, before, valuePath, item.error);
                return Err(item.error), TNull;
              }
              VisibleAppend(trees, tree, [], "");
              serialized := serialized + [item.value];
              trees := trees + [tree];
            }
            active.members := active.members - {id};
            full := TArray(trees);
            return Ok(TArray(serialized)), full;
          case Plain(fields) =>
            var serialized: seq<Member> := [];
            VisibleEmpty();
            ghost var members: seq<Member> := [];
            for k := 0 to |fields|
              invariant active.members == before + {id}
              invariant |members| == k && serialized == VisibleMembers(members)
              invariant forall j | 0 <= j < k ::
                  members[j].key == fields[j].key && Unfolds(heap, fields[j].value, members[j].tree)
            {
              ChildHasAncestors(heap, before, id, k);
              ChildStep(heap[id], k);
              var item, tree := SerializeAdminQueryValue(heap, fields[k].value, valuePath + [Key(fields[k].key)], active);
              if item.Err? {
                FailureBelow(heap, id, k, before, valuePath, item.error);
                return Err(item.error), TNull;
              }
              VisibleAppend([], tree, members, fields[k].key);
              if fields[k].key != PROTO_KEY {
                serialized := serialized + [Member(fields[k].key, item.value)];
              }
              members := members + [Member(fields[k].key, tree)];
            }
            active.members := active.members - {id};
            full := TObject(members);
            return Ok(TObject(serialized)), full;
        }
    }
  }

  lemma AtViaChild(heap: Heap, v: Value, k: nat, steps: seq<Step>, w: Value)
    requires v.Ref? && v.id in heap && k < |Children(heap[v.id])|
    requires At(heap, Children(heap[v.id])[k], steps, w)
    ensures At(heap, v, [StepTo(heap[v.id], k)] + steps, w)
  {
    var all := [StepTo(heap[v.id], k)] + steps;
    assert all[1..] == steps;
  }

  lemma AtNothing(heap: Heap, v: Value, w: Value)
    ensures At(heap, v, [], w) <==> v == w
  {
  }

  lemma FirstStep(heap: Heap, v: Value, steps: seq<Step>, w: Value) returns (k: nat)
    requires steps != [] && At(heap, v, steps, w)
    ensures v.Ref? && v.id in heap && k < |Children(heap[v.id])| && StepTo(heap[v.id], k) == steps[0]
    ensures At(heap, Children(heap[v.id])[k], steps[1..], w)
  {
    k :| 0 <= k < |Children(heap[v.id])| && StepTo(heap[v.id], k) == steps[0]
         && At(heap, Children(heap[v.id])[k], steps[1..], w);
  }

  lemma {:induction false} AtConcat(heap: Heap, v: Value, s: seq<Step>, w: Value, s': seq<Step>, x: Value)
    requires At(heap, v, s, w) && At(heap, w, s', x)
    ensures At(heap, v, s + s', x)
    decreases |s|
  {
    hide At, StepTo;
    if s == [] {
      AtNothing(heap, v, w);
      assert s + s' == s';
    } else {
      var k := FirstStep(heap, v, s, w);
      AtConcat(heap, Children(heap[v.id])[k], s[1..], w, s', x);
      AtViaChild(heap, v, k, s[1..] + s', x);
      assert s + s' == [s[0]] + (s[1..] + s');
    }
  }

  lemma FailsHere(heap: Heap, v: Value, active: set<nat>, path: seq<Step>)
    ensures v == Unsupported ==> Explains(heap, v, active, path, UnsupportedType(path))
    ensures v.Ref? && v.id in active && Ancestors(heap, active, v) ==> Explains(heap, v, active, path, Circular(path))
  {
    AtNothing(heap, v, v);
    assert path[|path|..] == [];
  }

  lemma ChildIsOneStepAway(heap: Heap, id: nat, k: nat)
    requires id in heap && k < |Children(heap[id])|
    ensures At(heap, Ref(id), [StepTo(heap[id], k)], Children(heap[id])[k])
  {
    var s := [StepTo(heap[id], k)];
    assert s[1..] == [];
    assert At(heap, Children(heap[id])[k], s[1..], Children(heap[id])[k]);
  }

  lemma VisibleEmpty()
    ensures VisibleItems([]) == [] && VisibleMembers([]) == []
  {
  }

  lemma VisibleAppend(items: seq<Tree>, t: Tree, members: seq<Member>, key: string)
    ensures VisibleItems(items + [t]) == VisibleItems(items) + [Visible(t)]
    ensures VisibleMembers(members + [Member(key, t)]) ==
            if key == PROTO_KEY then VisibleMembers(members) else VisibleMembers(members) + [Member(key, Visible(t))]
  {
    assert (items + [t])[..|items|] == items;
    assert (members + [Member(key, t)])[..|members|] == members;
  }

  lemma ChildStep(o: Object, k: nat)
    requires k < |Children(o)|
    ensures StepTo(o, k) == if o.Array? then Index(k) else Key(o.fields[k].key)
  {
  }

  lemma ChildHasAncestors(heap: Heap, active: set<nat>, id: nat, k: nat)
    requires id in heap && k < |Children(heap[id])| && Ancestors(heap, active, Ref(id))
    ensures Ancestors(heap, active + {id}, Children(heap[id])[k])
  {
    var child, step := Children(heap[id])[k], StepTo(heap[id], k);
    ChildIsOneStepAway(heap, id, k);
    forall a | a in active + {id} ensures Reaches(heap, a, child) {
      if a in active {
        var steps :| steps != [] && At(heap, Ref(a), steps, Ref(id));
        AtConcat(heap, Ref(a), steps, Ref(id), [step], child);
        assert steps + [step] != [];
      }
    }
  }

  lemma FailureBelow(heap: Heap, id: nat, k: nat, active: set<nat>, path: seq<Step>, failure: Failure)
    requires id in heap && k < |Children(heap[id])|
    requires Explains(heap, Children(heap[id])[k], active + {id}, path + [StepTo(heap[id], k)], failure)
    ensures Explains(heap, Ref(id), active, path, failure)
  {
    var step, child := StepTo(heap[id], k), Children(heap[id])[k];
    var below, steps := failure.path[|path| + 1..], failure.path[|path|..];
    assert failure.path[|path|] == (path + [step])[|path|] == step;
    assert steps == [step] + below;
    assert path <= path + [step];
    ChildIsOneStepAway(heap, id, k);
    if failure.UnsupportedType? {
      AtConcat(heap, Ref(id), [step], child, below, Unsupported);
    } else {
      var o :| At(heap, child, below, Ref(o)) && Reaches(heap, o, Ref(o));
      AtConcat(heap, Ref(id), [step], child, below, Ref(o));
    }
  }

  function Size(t: Tree): nat {
    match t
    case TArray(items) => 1 + SizeItems(items)
    case TObject(members) => 1 + SizeMembers(members)
    case _ => 1
  }

  function SizeItems(items: seq<Tree>): nat {
    if items == [] then 0 else Size(items[0]) + SizeItems(items[1..])
  }

  function SizeMembers(members: seq<Member>): nat {
    if members == [] then 0 else Size(members[0].tree) + SizeMembers(members[1..])
  }

  lemma {:induction false} ItemIsSmaller(items: seq<Tree>, k: nat)
    requires k < |items|
    ensures Size(items[k]) <= SizeItems(items)
  {
    if k > 0 {
      ItemIsSmaller(items[1..], k - 1);
    }
  }

  lemma {:induction false} MemberIsSmaller(members: seq<Member>, k: nat)
    requires k < |members|
    ensures Size(members[k].tree) <= SizeMembers(members)
  {
    if k > 0 {
      MemberIsSmaller(members[1..], k - 1);
    }
  }

  /** A value has at most one unfolding. */
  lemma {:induction false} UnfoldingIsUnique(heap: Heap, v: Value, t: Tree, t': Tree)
    requires Unfolds(heap, v, t) && Unfolds(heap, v, t')
    ensures t == t'
    decreases t
  {
    if v.Ref? {
      match heap[v.id] {
        case Array(items) =>
          forall k | 0 <= k < |items| ensures t.items[k] == t'.items[k] {
            UnfoldingIsUnique(heap, items[k], t.items[k], t'.items[k]);
          }
        case Plain(fields) =>
          forall k | 0 <= k < |fields| ensures t.members[k] == t'.members[k] {
            UnfoldingIsUnique(heap, fields[k].value, t.members[k].tree, t'.members[k].tree);
          }
      }
    }
  }

  /** Whatever a path reaches is unfolded by a subtree, a smaller one if the path is not empty. */
  lemma {:induction false} SubtreeAt(heap: Heap, v: Value, t: Tree, steps: seq<Step>, w: Value) returns (t': Tree)
    requires Unfolds(heap, v, t) && At(heap, v, steps, w)
    ensures Unfolds(heap, w, t') && Size(t') <= Size(t) && (steps != [] ==> Size(t') < Size(t))
    decreases |steps|
  {
    if steps == [] {
      t' := t;
    } else {
      var k := FirstStep(heap, v, steps, w);
      match heap[v.id] {
        case Array(items) =>
          ItemIsSmaller(t.items, k);
          t' := SubtreeAt(heap, items[k], t.items[k], steps[1..], w);
        case Plain(fields) =>
          MemberIsSmaller(t.members, k);
          t' := SubtreeAt(heap, fields[k].value, t.members[k].tree, steps[1..], w);
      }
    }
  }

  lemma UnfoldableIsClean(heap: Heap, v: Value, t: Tree)
    requires Unfolds(heap, v, t)
    ensures Clean(heap, v)
  {
    forall steps, w | At(heap, v, steps, w) ensures w != Unsupported && (w.Ref? ==> !Reaches(heap, w.id, w)) {
      var s := SubtreeAt(heap, v, t, steps, w);
      if w.Ref? && Reaches(heap, w.id, w) {
        var around :| around != [] && At(heap, w, around, w);
        var s' := SubtreeAt(heap, w, s, around, w);
        UnfoldingIsUnique(heap, w, s, s');
      }
    }
  }

  lemma ExplainedIsNotClean(heap: Heap, v: Value, failure: Failure)
    requires Explains(heap, v, {}, [], failure)
    ensures !Clean(heap, v)
  {
    assert failure.path[0..] == failure.path;
  }

  /** One cell, with a fresh active set: serialising succeeds exactly when no cycle and no unsupported value
      is reachable, which is exactly when a finite unfolding exists; the result is that unfolding without its
      "__proto__" members, and the active set is empty again. A failure names a path to the offender. */
  method SerializeCell(heap: Heap, value: Value) returns (r: Result<Tree, Failure>)
    requires Closed(heap) && InHeap(heap, value)
    ensures r.Ok? <==> Clean(heap, value)
    ensures r.Ok? <==> exists t :: Unfolds(heap, value, t)
    ensures forall t | Unfolds(heap, value, t) :: r == Ok(Visible(t))
    ensures r.Err? ==> Explains(heap, value, {}, [], r.error)
  {
    var active := new ActiveObjects();
    ghost var full: Tree;
    r, full := SerializeAdminQueryValue(heap, value, [], active);
    if r.Ok? {
      assert Unfolds(heap, value, full);
      UnfoldableIsClean(heap, value, full);
      forall t | Unfolds(heap, value, t) ensures r == Ok(Visible(t)) {
        UnfoldingIsUnique(heap, value, t, full);
      }
    } else {
      ExplainedIsNotClean(heap, value, r.error);
      forall t ensures !Unfolds(heap, value, t) {
        if Unfolds(heap, value, t) {
          UnfoldableIsClean(heap, value, t);
        }
      }
    }
  }

  lemma {:induction false} VisibleItemsAt(items: seq<Tree>)
    ensures |VisibleItems(items)| == |items|
    ensures forall k | 0 <= k < |items| :: VisibleItems(items)[k] == Visible(items[k])
  {
    if items != [] {
      VisibleItemsAt(items[..|items| - 1]);
    }
  }

  lemma {:induction false} VisibleMembersShrink(members: seq<Member>)
    ensures |VisibleMembers(members)| <= |members|
    ensures (forall k | 0 <= k < |members| :: members[k].key != PROTO_KEY) ==>
              |VisibleMembers(members)| == |members| &&
              forall k | 0 <= k < |members| ::
                VisibleMembers(members)[k] == Member(members[k].key, Visible(members[k].tree))
    ensures (exists k | 0 <= k < |members| :: members[k].key == PROTO_KEY) ==> |VisibleMembers(members)| < |members|
  {
    if members != [] {
      VisibleMembersShrink(members[..|members| - 1]);
    }
  }

  /** The serialised tree is the whole unfolding exactly when no reachable object has an own "__proto__" key. */
  lemma {:induction false} NothingHiddenExactly(t: Tree)
    ensures Visible(t) == t <==> !NamesProto(t)
  {
    match t {
      case TArray(items) =>
        VisibleItemsAt(items);
        forall k | 0 <= k < |items| ensures Visible(items[k]) == items[k] <==> !NamesProto(items[k]) {
          NothingHiddenExactly(items[k]);
        }
        if !NamesProto(t) {
          assert VisibleItems(items) == items;
        }
      case TObject(members) =>
        VisibleMembersShrink(members);
        forall k | 0 <= k < |members|
          ensures Visible(members[k].tree) == members[k].tree <==> !NamesProto(members[k].tree)
        {
          NothingHiddenExactly(members[k].tree);
        }
        if !NamesProto(t) {
          assert VisibleMembers(members) == members;
        }
      case _ =>
    }
  }
}
