/** The JSON boundary: an explicit-stack walk over an object graph that may share
    containers or run in circles, with resource limits. */
module GraphValidation {
  import opened Prelude

  const MAX_STRING_CHARS: nat := 262144
  const MAX_KEY_CHARS: nat := 4096
  const MAX_AGGREGATE_CHARS: nat := 1048576
  const MAX_DEPTH: nat := 64
  const MAX_NODES: nat := 10000
  const MAX_INTEGER_BITS: nat := 4096

  type Id = nat

  /** A host value. Containers are references; `Foreign` is any value of a type
      JSON does not have. */
  datatype Value =
    | Null
    | Bool(flag: bool)
    | Int(number: int)
    | Float(finite: bool)
    | Str(text: string)
    | Ref(id: Id)
    | Foreign

  datatype Key = StrKey(text: string) | ForeignKey

  datatype Container = Dict(entries: seq<(Key, Value)>) | List(items: seq<Value>)

  /** The heap: containers by identity. */
  type Graph = map<Id, Container>

  datatype Error =
    | NodeLimitExceeded | DepthExceeded | StringTooLarge | CharacterLimitExceeded
    | IntegerTooLarge | NonfiniteNumber | Cycle | KeyTooLarge | NonJsonData

  /** Nodes and characters counted so far. */
  datatype Usage = Usage(nodes: nat, chars: nat)

  function Children(c: Container): (vs: seq<Value>)
    ensures c.List? ==> vs == c.items
    ensures c.Dict? ==> |vs| == |c.entries| && forall i | 0 <= i < |vs| :: c.entries[i].1 == vs[i]
  {
    match c
    case Dict(entries) => seq(|entries|, i requires 0 <= i < |entries| => entries[i].1)
    case List(items) => items
  }

  /** Every reference inside the heap leads somewhere. */
  ghost predicate Closed(g: Graph) {
    forall id | id in g :: KnownAll(g, Children(g[id]))
  }

  predicate Known(g: Graph, v: Value) {
    v.Ref? ==> v.id in g
  }

  predicate KnownAll(g: Graph, vs: seq<Value>) {
    forall i | 0 <= i < |vs| :: Known(g, vs[i])
  }

  function BitLength(n: nat): nat {
    if n == 0 then 0 else 1 + BitLength(n / 2)
  }

  function Magnitude(n: int): nat {
    if n < 0 then -n else n
  }

  ghost function PowerOfTwo(k: nat): nat {
    if k == 0 then 1 else 2 * PowerOfTwo(k - 1)
  }

  /** So many bits are enough for exactly the numbers below that power of two. */
  lemma {:induction false} BitLengthMeaning(n: nat, k: nat)
    ensures BitLength(n) <= k <==> n < PowerOfTwo(k)
  {
    if k == 0 {
    } else if n == 0 {
      BitLengthMeaning(0, k - 1);
    } else {
      BitLengthMeaning(n / 2, k - 1);
    }
  }

  // ------------------------------------------------------- the declared limits

  /** What a value graph unfolds to when containers are followed from `v`. */
  datatype Tree = Leaf(value: Value) | Node(id: Id, children: seq<Tree>)

  ghost predicate Unfolds(g: Graph, v: Value, t: Tree)
    decreases t
  {
    match t
    case Leaf(value) => value == v && !v.Ref?
    case Node(id, children) =>
      v == Ref(id) && id in g && |children| == |Children(g[id])| &&
      forall i | 0 <= i < |children| :: Unfolds(g, Children(g[id])[i], children[i])
  }

  ghost function NodeCount(t: Tree): nat {
    match t
    case Leaf(_) => 1
    case Node(_, children) => 1 + NodeCounts(children)
  }

  ghost function NodeCounts(ts: seq<Tree>): nat {
    if ts == [] then 0 else NodeCount(ts[0]) + NodeCounts(ts[1..])
  }

  ghost predicate HeightAtMost(t: Tree, h: int) {
    h >= 0 && (t.Node? ==> forall c | c in t.children :: HeightAtMost(c, h - 1))
  }

  function KeyChars(entries: seq<(Key, Value)>): nat {
    if entries == [] then 0
    else
      var key := entries[|entries| - 1].0;
      KeyChars(entries[..|entries| - 1]) + if key.StrKey? then |key.text| else 0
  }

  function OwnChars(c: Container): nat {
    match c
    case Dict(entries) => KeyChars(entries)
    case List(_) => 0
  }

  /** All characters of the strings and keys of the unfolding, repeats included. */
  ghost function CharCount(g: Graph, t: Tree): nat {
    match t
    case Leaf(value) => if value.Str? then |value.text| else 0
    case Node(id, children) => (if id in g then OwnChars(g[id]) else 0) + CharCounts(g, children)
  }

  ghost function CharCounts(g: Graph, ts: seq<Tree>): nat {
    if ts == [] then 0 else CharCount(g, ts[0]) + CharCounts(g, ts[1..])
  }

  predicate PlainScalar(v: Value) {
    match v
    case Null => true
    case Bool(_) => true
    case Int(n) => BitLength(Magnitude(n)) <= MAX_INTEGER_BITS
    case Float(finite) => finite
    case Str(text) => |text| <= 262144
    case Ref(_) => false
    case Foreign => false
  }

  /** Integers are accepted up to 4096 bits, either way. */
  lemma {:induction false} PlainIntegers(n: int, bits: nat)
    requires bits == MAX_INTEGER_BITS
    ensures bits == 4096 && (PlainScalar(Int(n)) <==> n < PowerOfTwo(bits) && -n < PowerOfTwo(bits))
  {
    BitLengthMeaning(Magnitude(n), bits);
  }

  predicate PlainKeys(c: Container) {
    c.Dict? ==> forall e <- c.entries :: e.0.StrKey? && |e.0.text| <= 4096
  }

  ghost predicate PlainTree(g: Graph, t: Tree) {
    match t
    case Leaf(value) => PlainScalar(value)
    case Node(id, children) => id in g && PlainKeys(g[id]) && forall c | c in children :: PlainTree(g, c)
  }

  /** The whole contract of the boundary, as a property of the unfolding. */
  ghost predicate WithinLimits(g: Graph, t: Tree) {
    && PlainTree(g, t)
    && NodeCount(t) <= 10000
    && HeightAtMost(t, 64)
    && CharCount(g, t) <= 1048576
  }

  // ------------------------------------------------------ recursive validation

  /** Keys are checked from the last to the first while their values are pushed. */
  function ScanKeys(entries: seq<(Key, Value)>, chars: nat): Result<nat, Error> {
    if entries == [] then Ok(chars)
    else
      match entries[|entries| - 1].0
      case ForeignKey => Err(NonJsonData)
      case StrKey(text) =>
        if |text| > MAX_KEY_CHARS then Err(KeyTooLarge)
        else if chars + |text| > MAX_AGGREGATE_CHARS then Err(CharacterLimitExceeded)
        else ScanKeys(entries[..|entries| - 1], chars + |text|)
  }

  function ScanContainer(c: Container, chars: nat): Result<nat, Error> {
    match c
    case Dict(entries) => ScanKeys(entries, chars)
    case List(_) => Ok(chars)
  }

  /** What happens at a value that is not a container. */
  function VisitScalar(v: Value, usage: Usage): Result<Usage, Error>
    requires !v.Ref?
  {
    match v
    case Str(text) =>
      if |text| > MAX_STRING_CHARS then Err(StringTooLarge)
      else if usage.chars + |text| > MAX_AGGREGATE_CHARS then Err(CharacterLimitExceeded)
      else Ok(usage.(chars := usage.chars + |text|))
    case Int(n) => if BitLength(Magnitude(n)) > MAX_INTEGER_BITS then Err(IntegerTooLarge) else Ok(usage)
    case Float(finite) => if finite then Ok(usage) else Err(NonfiniteNumber)
    case Foreign => Err(NonJsonData)
    case _ => Ok(usage)
  }

  /** The depth-first validator one would write recursively; `path` holds the
      containers on the way down. */
  ghost function Visit(g: Graph, v: Value, depth: nat, path: set<Id>, usage: Usage): Result<Usage, Error>
    requires Closed(g) && Known(g, v)
    requires depth <= MAX_DEPTH + 1
    decreases MAX_DEPTH + 1 - depth, 0, 1
  {
    var entered := usage.(nodes := usage.nodes + 1);
    if entered.nodes > MAX_NODES then Err(NodeLimitExceeded)
    else if depth > MAX_DEPTH then Err(DepthExceeded)
    else if !v.Ref? then VisitScalar(v, entered)
    else if v.id in path then Err(Cycle)
    else
      var chars :- ScanContainer(g[v.id], entered.chars);
      VisitAll(g, Children(g[v.id]), depth + 1, path + {v.id}, entered.(chars := chars))
  }

  ghost function VisitAll(g: Graph, vs: seq<Value>, depth: nat, path: set<Id>, usage: Usage): Result<Usage, Error>
    requires Closed(g) && KnownAll(g, vs)
    requires depth <= MAX_DEPTH + 1
    decreases MAX_DEPTH + 1 - depth, |vs| + 1, 0
  {
    if vs == [] then Ok(usage)
    else
      var next :- Visit(g, vs[0], depth, path, usage);
      VisitAll(g, vs[1..], depth, path, next)
  }

  // ------------------------------------------------------- iterative validation

  /** A stack entry `(value, depth, leaving)`; a leaving entry only needs the identity. */
  datatype Frame = Enter(value: Value, depth: nat) | Leave(id: Id)

  ghost predicate SoundStack(g: Graph, stack: seq<Frame>) {
    forall i | 0 <= i < |stack| && stack[i].Enter? :: Known(g, stack[i].value) && stack[i].depth <= MAX_DEPTH + 1
  }

  /** The children of one container as pushed: the first child ends on top. */
  function Pushed(vs: seq<Value>, depth: nat): seq<Frame> {
    if vs == [] then [] else Pushed(vs[1..], depth) + [Enter(vs[0], depth)]
  }

  /** What is still to be computed when `stack` is left: its frames, top first. */
  ghost function Run(g: Graph, stack: seq<Frame>, path: set<Id>, usage: Usage): Result<Usage, Error>
    requires Closed(g) && SoundStack(g, stack)
  {
    if stack == [] then Ok(usage)
    else
      var rest := stack[..|stack| - 1];
      match stack[|stack| - 1]
      case Leave(id) => Run(g, rest, path - {id}, usage)
      case Enter(v, depth) =>
        var next :- Visit(g, v, depth, path, usage);
        Run(g, rest, path, next)
  }

  /** The walk goes on below once `outcome` has been reached, unless it is an error. */
  ghost function Resume(g: Graph, stack: seq<Frame>, path: set<Id>, outcome: Result<Usage, Error>): Result<Usage, Error>
    requires Closed(g) && SoundStack(g, stack)
  {
    if outcome.Err? then outcome else Run(g, stack, path, outcome.value)
  }

  /** The walk goes on inside a container once its keys have passed. */
  ghost function ResumeContainer(g: Graph, stack: seq<Frame>, id: Id, depth: nat, path: set<Id>, usage: Usage):
      Result<Usage, Error>
    requires Closed(g) && SoundStack(g, stack) && id in g && depth <= MAX_DEPTH
  {
    var chars :- ScanContainer(g[id], usage.chars);
    Resume(g, stack, path, VisitAll(g, Children(g[id]), depth + 1, path + {id}, usage.(chars := chars)))
  }

  lemma {:induction false} PushedIsSound(g: Graph, stack: seq<Frame>, vs: seq<Value>, depth: nat)
    requires SoundStack(g, stack) && KnownAll(g, vs) && depth <= MAX_DEPTH + 1
    ensures SoundStack(g, stack + Pushed(vs, depth))
    ensures LeavingIds(stack + Pushed(vs, depth)) == LeavingIds(stack)
  {
    if vs == [] {
      assert stack + Pushed(vs, depth) == stack;
    } else {
      PushedIsSound(g, stack, vs[1..], depth);
      assert stack + Pushed(vs, depth) == (stack + Pushed(vs[1..], depth)) + [Enter(vs[0], depth)];
    }
  }

  /** Popping pushed children is visiting them in order. */
  lemma {:induction false} RunPushed(g: Graph, stack: seq<Frame>, vs: seq<Value>, depth: nat, path: set<Id>,
        usage: Usage)
    requires Closed(g) && SoundStack(g, stack) && KnownAll(g, vs) && depth <= MAX_DEPTH + 1
    requires SoundStack(g, stack + Pushed(vs, depth))
    ensures Run(g, stack + Pushed(vs, depth), path, usage) ==
      Resume(g, stack, path, VisitAll(g, vs, depth, path, usage))
  {
    if vs == [] {
      assert stack + Pushed(vs, depth) == stack;
    } else {
      var below := stack + Pushed(vs[1..], depth);
      assert stack + Pushed(vs, depth) == below + [Enter(vs[0], depth)];
      assert (below + [Enter(vs[0], depth)])[..|below|] == below;
      PushedIsSound(g, stack, vs[1..], depth);
      var first := Visit(g, vs[0], depth, path, usage);
      if first.Ok? {
        RunPushed(g, stack, vs[1..], depth, path, first.value);
      }
    }
  }

  /** The containers whose leaving entry is still on the stack, innermost last. */
  ghost function LeavingIds(stack: seq<Frame>): seq<Id> {
    if stack == [] then []
    else
      var top := stack[|stack| - 1];
      LeavingIds(stack[..|stack| - 1]) + if top.Leave? then [top.id] else []
  }

  lemma {:induction false} PopFrame(stack: seq<Frame>)
    requires stack != [] && Distinct(LeavingIds(stack))
    ensures var rest, top := LeavingIds(stack[..|stack| - 1]), stack[|stack| - 1];
      && Distinct(rest)
      && (top.Enter? ==> rest == LeavingIds(stack))
      && (top.Leave? ==> top.id in Elements(LeavingIds(stack)) &&
                         Elements(LeavingIds(stack)) - {top.id} == Elements(rest))
  {
    var rest, top := LeavingIds(stack[..|stack| - 1]), stack[|stack| - 1];
    assert rest + [] == rest;
    if top.Leave? {
      var ids := rest + [top.id];
      assert ids == LeavingIds(stack);
      assert forall i | 0 <= i < |rest| :: rest[i] == ids[i] != ids[|rest|];
      assert ids[|rest|] == top.id && top.id in ids;
      assert forall x :: x in ids <==> x in rest || x == top.id;
    }
  }

  /** The set of containers being visited is exactly what the stack has still to leave. */
  ghost predicate Walking(g: Graph, stack: seq<Frame>, active: set<Id>) {
    SoundStack(g, stack) && Distinct(LeavingIds(stack)) && active == Elements(LeavingIds(stack))
  }

  /** Leaving a container. */
  lemma {:induction false} LeaveTop(g: Graph, rest: seq<Frame>, id: Id, path: set<Id>, usage: Usage)
    requires Closed(g) && Walking(g, rest + [Leave(id)], path)
    ensures id in path && Walking(g, rest, path - {id})
    ensures Run(g, rest + [Leave(id)], path, usage) == Run(g, rest, path - {id}, usage)
  {
    assert (rest + [Leave(id)])[..|rest|] == rest;
    PopFrame(rest + [Leave(id)]);
  }

  /** Visiting a value. */
  lemma {:induction false} EnterTop(g: Graph, rest: seq<Frame>, v: Value, depth: nat, path: set<Id>, usage: Usage)
    requires Closed(g) && Walking(g, rest + [Enter(v, depth)], path)
    ensures Walking(g, rest, path)
    ensures Known(g, v) && depth <= MAX_DEPTH + 1
    ensures var entered := usage.(nodes := usage.nodes + 1);
      Run(g, rest + [Enter(v, depth)], path, usage) ==
        if entered.nodes > MAX_NODES then Err(NodeLimitExceeded)
        else if depth > MAX_DEPTH then Err(DepthExceeded)
        else if !v.Ref? then Resume(g, rest, path, VisitScalar(v, entered))
        else if v.id in path then Err(Cycle)
        else ResumeContainer(g, rest, v.id, depth, path, entered)
  {
    assert (rest + [Enter(v, depth)])[..|rest|] == rest;
    PopFrame(rest + [Enter(v, depth)]);
  }

  method PushEntries(stack: seq<Frame>, entries: seq<(Key, Value)>, depth: nat, chars: nat)
    returns (r: Result<(seq<Frame>, nat), Error>)
    ensures var scanned := ScanKeys(entries, chars);
      if scanned.Err? then r == Err(scanned.error)
      else r == Ok((stack + Pushed(Children(Dict(entries)), depth), scanned.value))
  {
    var grown := stack;
    var total: nat := chars;
    var i: nat := |entries|;
    ghost var vs := Children(Dict(entries));
    assert vs[i..] == [] && entries[..i] == entries;
    while i > 0
      invariant 0 <= i <= |entries|
      invariant grown == stack + Pushed(vs[i..], depth)
      invariant ScanKeys(entries[..i], total) == ScanKeys(entries, chars)
    {
      i := i - 1;
      assert entries[..i + 1][..i] == entries[..i];
      match entries[i].0
      case ForeignKey =>
        return Err(NonJsonData);
      case StrKey(text) =>
        if |text| > MAX_KEY_CHARS {
          return Err(KeyTooLarge);
        }
        total := total + |text|;
        if total > MAX_AGGREGATE_CHARS {
          return Err(CharacterLimitExceeded);
        }
        assert vs[i..][1..] == vs[i + 1..];
        grown := grown + [Enter(entries[i].1, depth)];
    }
    assert vs[0..] == vs;
    return Ok((grown, total));
  }

  method PushItems(stack: seq<Frame>, items: seq<Value>, depth: nat) returns (grown: seq<Frame>)
    ensures grown == stack + Pushed(items, depth)
  {
    grown := stack;
    var i := |items|;
    while i > 0
      invariant 0 <= i <= |items|
      invariant grown == stack + Pushed(items[i..], depth)
    {
      i := i - 1;
      assert items[i..][1..] == items[i + 1..];
      grown := grown + [Enter(items[i], depth)];
    }
    assert items[0..] == items;
  }

  /** Checks a container's keys and pushes its leaving entry and its children. */
  method OpenContainer(g: Graph, stack: seq<Frame>, id: Id, depth: nat, ghost active: set<Id>, usage: Usage)
    returns (r: Result<(seq<Frame>, Usage), Error>)
    requires Closed(g) && Walking(g, stack, active) && id in g && id !in active && depth <= MAX_DEPTH + 1
    ensures r.Err? <==> ScanContainer(g[id], usage.chars).Err?
    ensures r.Err? ==> r.error == ScanContainer(g[id], usage.chars).error
    ensures r.Ok? ==> var (grown, counted) := r.value;
      && counted == usage.(chars := ScanContainer(g[id], usage.chars).value)
      && Walking(g, grown, active + {id})
      && Run(g, grown, active + {id}, counted) ==
         Resume(g, stack, active, VisitAll(g, Children(g[id]), depth, active + {id}, counted))
  {
    match g[id]
    case Dict(entries) =>
      var pushed :- PushEntries(stack + [Leave(id)], entries, depth, usage.chars);
      var counted := usage.(chars := pushed.1);
      EnterContainer(g, stack, id, depth, active, counted);
      return Ok((pushed.0, counted));
    case List(items) =>
      var grown := PushItems(stack + [Leave(id)], items, depth);
      EnterContainer(g, stack, id, depth, active, usage);
      return Ok((grown, usage));
  }

  /** The source's walk: an explicit stack, the set of containers being visited,
      and two counters. It computes what the recursive validator computes, error
      codes included; `active` is exactly the set of containers on the way down. */
  method EnsureJsonValue(g: Graph, value: Value) returns (r: Result<Usage, Error>)
    requires Closed(g) && Known(g, value)
    ensures r == Visit(g, value, 0, {}, Usage(0, 0))
  {
    var active: set<Id> := {};
    var stack := [Enter(value, 0)];
    var usage := Usage(0, 0);
    assert stack[..0] == [];
    ghost var outcome := Visit(g, value, 0, active, usage);
    while stack != []
      invariant usage.nodes <= MAX_NODES
      invariant Walking(g, stack, active)
      invariant Run(g, stack, active, usage) == outcome
      decreases MAX_NODES - usage.nodes, |stack|
    {
      var current := stack[|stack| - 1];
      ghost var was := stack;
      stack := stack[..|stack| - 1];
      assert was == stack + [current];
      if current.Leave? {
        LeaveTop(g, stack, current.id, active, usage);
        active := active - {current.id};
      } else {
        EnterTop(g, stack, current.value, current.depth, active, usage);
        usage := usage.(nodes := usage.nodes + 1);
        if usage.nodes > MAX_NODES {
          return Err(NodeLimitExceeded);
        }
        if current.depth > MAX_DEPTH {
          return Err(DepthExceeded);
        }
        if !current.value.Ref? {
          usage :- VisitScalar(current.value, usage);
        } else {
          var id := current.value.id;
          if id in active {
            return Err(Cycle);
          }
          var grown :- OpenContainer(g, stack, id, current.depth + 1, active, usage);
          active := active + {id};
          stack, usage := grown.0, grown.1;
        }
      }
    }
    return Ok(usage);
  }

  /** Entering a container: its leaving entry closes exactly the visit of its children. */
  lemma {:induction false} EnterContainer(g: Graph, stack: seq<Frame>, id: Id, depth: nat, path: set<Id>, usage: Usage)
    requires Closed(g) && Walking(g, stack, path) && id in g && id !in path && depth <= MAX_DEPTH + 1
    ensures var grown := stack + [Leave(id)] + Pushed(Children(g[id]), depth);
      && Walking(g, grown, path + {id})
      && Run(g, grown, path + {id}, usage) ==
         Resume(g, stack, path, VisitAll(g, Children(g[id]), depth, path + {id}, usage))
  {
    var marked := stack + [Leave(id)];
    var vs := Children(g[id]);
    assert marked[..|stack|] == stack;
    assert LeavingIds(marked) == LeavingIds(stack) + [id];
    PushedIsSound(g, marked, vs, depth);
    RunPushed(g, marked, vs, depth, path + {id}, usage);
    assert path + {id} - {id} == path;
  }

  // --------------------------------- acceptance is a property of the unfolding

  /** All containers met in an unfolding. */
  ghost function Ids(t: Tree): set<Id> {
    match t
    case Leaf(_) => {}
    case Node(id, children) => {id} + set c, x | c in children && x in Ids(c) :: x
  }

  ghost predicate UnfoldsAll(g: Graph, vs: seq<Value>, ts: seq<Tree>) {
    |vs| == |ts| && forall i | 0 <= i < |vs| :: Unfolds(g, vs[i], ts[i])
  }

  /** A graph value unfolds in at most one way. */
  lemma {:induction false} UnfoldingUnique(g: Graph, v: Value, s: Tree, t: Tree)
    requires Unfolds(g, v, s) && Unfolds(g, v, t)
    ensures s == t
    decreases s
  {
    if s.Node? {
      forall i | 0 <= i < |s.children|
        ensures s.children[i] == t.children[i]
      {
        UnfoldingUnique(g, Children(g[s.id])[i], s.children[i], t.children[i]);
      }
    }
  }

  lemma {:induction false} NodeCountOfChild(ts: seq<Tree>, i: nat)
    requires i < |ts|
    ensures NodeCount(ts[i]) <= NodeCounts(ts)
  {
    if i > 0 {
      NodeCountOfChild(ts[1..], i - 1);
    }
  }

  /** A container met in an unfolding has an unfolding of its own, no larger. */
  lemma {:induction false} UnfoldingOf(g: Graph, v: Value, t: Tree, id: Id) returns (sub: Tree)
    requires Unfolds(g, v, t) && id in Ids(t)
    ensures Unfolds(g, Ref(id), sub) && NodeCount(sub) <= NodeCount(t)
    decreases t
  {
    if t.id == id {
      return t;
    }
    var i :| 0 <= i < |t.children| && id in Ids(t.children[i]);
    sub := UnfoldingOf(g, Children(g[t.id])[i], t.children[i], id);
    NodeCountOfChild(t.children, i);
  }

  /** What unfolds finitely never contains itself. */
  lemma {:induction false} NoContainerInsideItself(g: Graph, t: Tree, i: nat)
    requires t.Node? && Unfolds(g, Ref(t.id), t) && i < |t.children|
    ensures t.id !in Ids(t.children[i])
  {
    if t.id in Ids(t.children[i]) {
      var sub := UnfoldingOf(g, Children(g[t.id])[i], t.children[i], t.id);
      UnfoldingUnique(g, Ref(t.id), sub, t);
      NodeCountOfChild(t.children, i);
    }
  }

  lemma {:induction false} ScanKeysMeaning(entries: seq<(Key, Value)>, chars: nat)
    requires chars <= MAX_AGGREGATE_CHARS
    ensures ScanKeys(entries, chars).Ok? <==>
      PlainKeys(Dict(entries)) && chars + KeyChars(entries) <= MAX_AGGREGATE_CHARS
    ensures ScanKeys(entries, chars).Ok? ==> ScanKeys(entries, chars).value == chars + KeyChars(entries)
  {
    if entries != [] {
      var front, last := entries[..|entries| - 1], entries[|entries| - 1];
      assert entries == front + [last];
      assert PlainKeys(Dict(entries)) <==>
        PlainKeys(Dict(front)) && last.0.StrKey? && |last.0.text| <= MAX_KEY_CHARS;
      if last.0.StrKey? && chars + |last.0.text| <= MAX_AGGREGATE_CHARS {
        ScanKeysMeaning(front, chars + |last.0.text|);
      }
    }
  }

  lemma {:induction false} ScanContainerMeaning(c: Container, chars: nat)
    requires chars <= MAX_AGGREGATE_CHARS
    ensures ScanContainer(c, chars).Ok? <==> PlainKeys(c) && chars + OwnChars(c) <= MAX_AGGREGATE_CHARS
    ensures ScanContainer(c, chars).Ok? ==> ScanContainer(c, chars).value == chars + OwnChars(c)
  {
    if c.Dict? {
      ScanKeysMeaning(c.entries, chars);
    }
  }

  /** An accepted value unfolds to a finite tree, and the counters counted it. */
  lemma {:induction false} VisitSound(g: Graph, v: Value, depth: nat, path: set<Id>, usage: Usage) returns (t: Tree)
    requires Closed(g) && Known(g, v) && depth <= MAX_DEPTH + 1 && usage.chars <= MAX_AGGREGATE_CHARS
    requires Visit(g, v, depth, path, usage).Ok?
    ensures Unfolds(g, v, t) && PlainTree(g, t) && HeightAtMost(t, MAX_DEPTH - depth)
    ensures var after := Visit(g, v, depth, path, usage).value;
      && after == Usage(usage.nodes + NodeCount(t), usage.chars + CharCount(g, t))
      && after.nodes <= MAX_NODES && after.chars <= MAX_AGGREGATE_CHARS
    decreases MAX_DEPTH + 1 - depth, 0, 1
  {
    if v.Ref? {
      var c := g[v.id];
      ScanContainerMeaning(c, usage.chars);
      var entered := Usage(usage.nodes + 1, usage.chars + OwnChars(c));
      var ts := VisitAllSound(g, Children(c), depth + 1, path + {v.id}, entered);
      t := Node(v.id, ts);
    } else {
      t := Leaf(v);
    }
  }

  lemma {:induction false} VisitAllSound(g: Graph, vs: seq<Value>, depth: nat, path: set<Id>, usage: Usage)
    returns (ts: seq<Tree>)
    requires Closed(g) && KnownAll(g, vs) && depth <= MAX_DEPTH + 1
    requires usage.nodes <= MAX_NODES && usage.chars <= MAX_AGGREGATE_CHARS
    requires VisitAll(g, vs, depth, path, usage).Ok?
    ensures UnfoldsAll(g, vs, ts)
    ensures forall t | t in ts :: PlainTree(g, t) && HeightAtMost(t, MAX_DEPTH - depth)
    ensures var after := VisitAll(g, vs, depth, path, usage).value;
      && after == Usage(usage.nodes + NodeCounts(ts), usage.chars + CharCounts(g, ts))
      && after.nodes <= MAX_NODES && after.chars <= MAX_AGGREGATE_CHARS
    decreases MAX_DEPTH + 1 - depth, |vs| + 1, 0
  {
    if vs == [] {
      ts := [];
    } else {
      var first := VisitSound(g, vs[0], depth, path, usage);
      var rest := VisitAllSound(g, vs[1..], depth, path, Visit(g, vs[0], depth, path, usage).value);
      ts := [first] + rest;
      assert ts[1..] == rest;
    }
  }

  /** No container on the way down to `t` comes again below it. */
  ghost predicate Avoids(t: Tree, path: set<Id>) {
    t.Node? ==> t.id !in path && forall c | c in t.children :: Avoids(c, path + {t.id})
  }

  lemma {:induction false} UnfoldingAvoids(g: Graph, t: Tree, path: set<Id>)
    requires t.Node? ==> Unfolds(g, Ref(t.id), t)
    requires Ids(t) !! path
    ensures Avoids(t, path)
    decreases t
  {
    if t.Node? {
      assert t.id in Ids(t);
      forall i | 0 <= i < |t.children|
        ensures Avoids(t.children[i], path + {t.id})
      {
        NoContainerInsideItself(g, t, i);
        assert t.children[i] in t.children;
        assert Ids(t.children[i]) <= Ids(t);
        UnfoldingAvoids(g, t.children[i], path + {t.id});
      }
    }
  }

  /** A finite tree within the limits is accepted wherever it hangs. */
  lemma {:induction false} VisitComplete(g: Graph, v: Value, t: Tree, depth: nat, path: set<Id>, usage: Usage)
    requires Closed(g) && Known(g, v) && depth <= MAX_DEPTH + 1
    requires Unfolds(g, v, t) && PlainTree(g, t) && HeightAtMost(t, MAX_DEPTH - depth)
    requires usage.nodes + NodeCount(t) <= MAX_NODES
    requires usage.chars + CharCount(g, t) <= MAX_AGGREGATE_CHARS
    requires Avoids(t, path)
    ensures Visit(g, v, depth, path, usage) == Ok(Usage(usage.nodes + NodeCount(t), usage.chars + CharCount(g, t)))
    decreases t, 0
  {
    if t.Node? {
      ChildrenStayWithin(g, t, MAX_DEPTH - depth, path);
      NodeComplete(g, t.id, t.children, depth, path, usage);
    } else {
      LeafComplete(g, v, depth, path, usage);
    }
  }

  lemma {:induction false} LeafComplete(g: Graph, v: Value, depth: nat, path: set<Id>, usage: Usage)
    requires Closed(g) && depth <= MAX_DEPTH && PlainScalar(v)
    requires usage.nodes + 1 <= MAX_NODES
    requires usage.chars + CharCount(g, Leaf(v)) <= MAX_AGGREGATE_CHARS
    ensures Visit(g, v, depth, path, usage) == Ok(Usage(usage.nodes + 1, usage.chars + CharCount(g, Leaf(v))))
  {
    PlainScalarIsAccepted(v, Usage(usage.nodes + 1, usage.chars));
  }

  lemma {:induction false} NodeComplete(g: Graph, id: Id, ts: seq<Tree>, depth: nat, path: set<Id>, usage: Usage)
    requires Closed(g) && id in g && depth <= MAX_DEPTH && id !in path && PlainKeys(g[id])
    requires UnfoldsAll(g, Children(g[id]), ts)
    requires forall i | 0 <= i < |ts| ::
      PlainTree(g, ts[i]) && HeightAtMost(ts[i], MAX_DEPTH - depth - 1) && Avoids(ts[i], path + {id})
    requires usage.nodes + 1 + NodeCounts(ts) <= MAX_NODES
    requires usage.chars + OwnChars(g[id]) + CharCounts(g, ts) <= MAX_AGGREGATE_CHARS
    ensures Visit(g, Ref(id), depth, path, usage) ==
      Ok(Usage(usage.nodes + 1 + NodeCounts(ts), usage.chars + OwnChars(g[id]) + CharCounts(g, ts)))
    decreases ts, 2
  {
    var entered := Usage(usage.nodes + 1, usage.chars + OwnChars(g[id]));
    VisitAllComplete(g, Children(g[id]), ts, depth + 1, path + {id}, entered);
    VisitContainer(g, id, depth, path, usage);
  }

  /** A container within the limits is entered with its own node and key characters. */
  lemma {:induction false} VisitContainer(g: Graph, id: Id, depth: nat, path: set<Id>, usage: Usage)
    requires Closed(g) && id in g && depth <= MAX_DEPTH && id !in path && PlainKeys(g[id])
    requires usage.nodes + 1 <= MAX_NODES && usage.chars + OwnChars(g[id]) <= MAX_AGGREGATE_CHARS
    ensures Visit(g, Ref(id), depth, path, usage) ==
      VisitAll(g, Children(g[id]), depth + 1, path + {id}, Usage(usage.nodes + 1, usage.chars + OwnChars(g[id])))
  {
    ScanContainerMeaning(g[id], usage.chars);
  }

  lemma {:induction false} PlainScalarIsAccepted(v: Value, usage: Usage)
    requires PlainScalar(v)
    requires usage.chars + (if v.Str? then |v.text| else 0) <= MAX_AGGREGATE_CHARS
    ensures VisitScalar(v, usage) == Ok(usage.(chars := usage.chars + if v.Str? then |v.text| else 0))
  {
  }

  lemma {:induction false} ChildrenStayWithin(g: Graph, t: Tree, height: int, path: set<Id>)
    requires t.Node? && Unfolds(g, Ref(t.id), t) && PlainTree(g, t) && HeightAtMost(t, height) && Avoids(t, path)
    ensures t.id in g && PlainKeys(g[t.id]) && height >= 0 && t.id !in path
    ensures UnfoldsAll(g, Children(g[t.id]), t.children)
    ensures forall i | 0 <= i < |t.children| ::
      PlainTree(g, t.children[i]) && HeightAtMost(t.children[i], height - 1) && Avoids(t.children[i], path + {t.id})
  {
    assert forall i | 0 <= i < |t.children| :: t.children[i] in t.children;
  }

  lemma {:induction false} VisitAllComplete(g: Graph, vs: seq<Value>, ts: seq<Tree>, depth: nat, path: set<Id>,
        usage: Usage)
    requires Closed(g) && KnownAll(g, vs) && depth <= MAX_DEPTH + 1
    requires UnfoldsAll(g, vs, ts)
    requires forall i | 0 <= i < |ts| ::
      PlainTree(g, ts[i]) && HeightAtMost(ts[i], MAX_DEPTH - depth) && Avoids(ts[i], path)
    requires usage.nodes + NodeCounts(ts) <= MAX_NODES
    requires usage.chars + CharCounts(g, ts) <= MAX_AGGREGATE_CHARS
    ensures VisitAll(g, vs, depth, path, usage) ==
      Ok(Usage(usage.nodes + NodeCounts(ts), usage.chars + CharCounts(g, ts)))
    decreases ts, 1
  {
    if vs != [] {
      var next := Usage(usage.nodes + NodeCount(ts[0]), usage.chars + CharCount(g, ts[0]));
      VisitComplete(g, vs[0], ts[0], depth, path, usage);
      VisitAllComplete(g, vs[1..], ts[1..], depth, path, next);
    }
  }

  /** The boundary accepts a value exactly when following its containers gives a
      finite tree within the node, depth, character, key and integer limits: shared
      containers count once per occurrence, and a cycle is never accepted. */
  lemma {:induction false} AcceptedIffFiniteWithinLimits(g: Graph, v: Value)
    requires Closed(g) && Known(g, v)
    ensures Visit(g, v, 0, {}, Usage(0, 0)).Ok? <==> exists t :: Unfolds(g, v, t) && WithinLimits(g, t)
  {
    if Visit(g, v, 0, {}, Usage(0, 0)).Ok? {
      var t := VisitSound(g, v, 0, {}, Usage(0, 0));
      assert Unfolds(g, v, t) && WithinLimits(g, t);
    }
    if t :| Unfolds(g, v, t) && WithinLimits(g, t) {
      UnfoldingAvoids(g, t, {});
      VisitComplete(g, v, t, 0, {}, Usage(0, 0));
    }
  }

  /** Each container of the chain holds a reference to the next one. */
  ghost predicate Chain(g: Graph, ids: seq<Id>) {
    && |ids| > 0
    && (forall i | 0 <= i < |ids| :: ids[i] in g)
    && (forall i | 0 < i < |ids| :: Ref(ids[i]) in Children(g[ids[i - 1]]))
  }

  lemma {:induction false} ChainDescends(g: Graph, ids: seq<Id>, t: Tree) returns (sub: Tree)
    requires Chain(g, ids) && Unfolds(g, Ref(ids[0]), t)
    ensures Unfolds(g, Ref(ids[|ids| - 1]), sub) && NodeCount(sub) <= NodeCount(t) - (|ids| - 1)
  {
    if |ids| == 1 {
      return t;
    }
    var i :| 0 <= i < |t.children| && Children(g[ids[0]])[i] == Ref(ids[1]);
    NodeCountOfChild(t.children, i);
    sub := ChainDescends(g, ids[1..], t.children[i]);
  }

  /** A value from which some container can be reached along a chain that then
      comes back to it is refused, however small the graph is. */
  lemma {:induction false} CyclesAreRefused(g: Graph, ids: seq<Id>, back: nat)
    requires Closed(g) && Chain(g, ids) && back < |ids| - 1 && ids[back] == ids[|ids| - 1]
    ensures Visit(g, Ref(ids[0]), 0, {}, Usage(0, 0)).Err?
  {
    if Visit(g, Ref(ids[0]), 0, {}, Usage(0, 0)).Ok? {
      var t := VisitSound(g, Ref(ids[0]), 0, {}, Usage(0, 0));
      var there := ChainDescends(g, ids[..back + 1], t);
      var again := ChainDescends(g, ids[back..], there);
      UnfoldingUnique(g, Ref(ids[back]), there, again);
      assert false;
    }
  }
}
