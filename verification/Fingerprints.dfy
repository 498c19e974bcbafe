/** Action fingerprints: exclusion pointers are pruned deepest-first from a private
    copy of a JSON value, and what is left is the value's identity. */
module Fingerprints {
  import opened Prelude
  import opened JsonPointers
  import opened Splitting

  /** A finite plain JSON value. Arithmetic on floats plays no part here, so a
      float is the real number it denotes. */
  datatype Json =
    | Null
    | Bool(flag: bool)
    | Int(number: int)
    | Float(quantity: real)
    | Str(text: string)
    | Arr(items: seq<Json>)
    | Obj(fields: map<string, Json>)

  /** What a JSON loader hands over for data that is not one string: a string is
      taken for JSON text and loaded first. */
  type NonText = j: Json | !j.Str? witness Null

  type Path = seq<string>

  // ------------------------------------------------------------- one removal

  /** Resolving the parent of `path` runs into an array. */
  ghost predicate MeetsArray(tree: Json, path: Path)
    requires path != []
  {
    tree.Arr? ||
    (|path| > 1 && tree.Obj? && path[0] in tree.fields && MeetsArray(tree.fields[path[0]], path[1..]))
  }

  /** `path` names a field of some object in the tree. */
  ghost predicate Resolves(tree: Json, path: Path)
    requires path != []
  {
    tree.Obj? && path[0] in tree.fields && (|path| == 1 || Resolves(tree.fields[path[0]], path[1..]))
  }

  /** What the paths under field `k` look like from the value of that field. */
  ghost function Under(paths: set<Path>, k: string): set<Path> {
    set p: Path | p in paths && |p| > 1 && p[0] == k :: p[1..]
  }

  /** The tree without the fields that `paths` name, all of them at once. */
  ghost function Drop(tree: Json, paths: set<Path>): Json {
    match tree
    case Obj(fields) => Obj(map k | k in fields && [k] !in paths :: Drop(fields[k], Under(paths, k)))
    case _ => tree
  }

  /** Deletion of one field: whether it was there, and the tree afterwards. `None`
      is the refusal to reach into an array. */
  function RemovePath(tree: Json, path: Path): (r: Option<(bool, Json)>)
    requires path != []
  {
    match tree
    case Arr(_) => None
    case Obj(fields) =>
      if path[0] !in fields then Some((false, tree))
      else if |path| == 1 then Some((true, Obj(fields - {path[0]})))
      else (
        match RemovePath(fields[path[0]], path[1..])
        case None => None
        case Some((removed, child)) => Some((removed, Obj(fields[path[0] := child])))
      )
    case _ => Some((false, tree))
  }

  lemma {:induction false} DropNothing(tree: Json)
    ensures Drop(tree, {}) == tree
  {
    if tree.Obj? {
      forall k | k in tree.fields
        ensures Drop(tree.fields[k], Under({}, k)) == tree.fields[k]
      {
        assert Under({}, k) == {};
        DropNothing(tree.fields[k]);
      }
    }
  }

  /** One removal fails exactly on arrays, reports exactly what was there, and
      leaves exactly the tree without that field. */
  lemma {:induction false} RemovePathMeaning(tree: Json, path: Path)
    requires path != []
    ensures RemovePath(tree, path).None? <==> MeetsArray(tree, path)
    ensures RemovePath(tree, path).Some? ==>
      RemovePath(tree, path).value == (Resolves(tree, path), Drop(tree, {path}))
  {
    if tree.Obj? {
      var fields := tree.fields;
      forall k | k in fields && k != path[0]
        ensures Drop(fields[k], Under({path}, k)) == fields[k]
      {
        assert Under({path}, k) == {};
        DropNothing(fields[k]);
      }
      if path[0] in fields && |path| > 1 {
        RemovePathMeaning(fields[path[0]], path[1..]);
        assert Under({path}, path[0]) == {path[1..]};
      } else if path[0] in fields {
        assert path == [path[0]];
      }
      if RemovePath(tree, path).Some? {
        DropOnePath(tree, path);
      }
    }
  }

  /** The object case of `RemovePathMeaning`, field by field. */
  lemma {:induction false} DropOnePath(tree: Json, path: Path)
    requires path != [] && tree.Obj? && RemovePath(tree, path).Some?
    requires forall k | k in tree.fields && k != path[0] :: Drop(tree.fields[k], Under({path}, k)) == tree.fields[k]
    requires path[0] in tree.fields && |path| > 1 ==>
      Under({path}, path[0]) == {path[1..]} &&
      RemovePath(tree.fields[path[0]], path[1..]).Some? &&
      RemovePath(tree.fields[path[0]], path[1..]).value.1 == Drop(tree.fields[path[0]], {path[1..]})
    ensures RemovePath(tree, path).value.1 == Drop(tree, {path})
  {
    var fields := tree.fields;
    var after := RemovePath(tree, path).value.1;
    var dropped := Drop(tree, {path});
    forall k
      ensures k in after.fields <==> k in dropped.fields
    {
      assert [k] == path <==> |path| == 1 && k == path[0];
    }
    forall k | k in dropped.fields
      ensures after.fields[k] == dropped.fields[k]
    {
      assert dropped.fields[k] == Drop(fields[k], Under({path}, k));
      if k == path[0] {
        assert [k] != path;
      }
    }
    assert after.fields == dropped.fields;
  }

  // -------------------------------------------------------- several removals

  /** Dropping in two rounds is dropping the union: order never shows in the tree. */
  lemma {:induction false} DropTwice(tree: Json, first: set<Path>, second: set<Path>)
    ensures Drop(Drop(tree, first), second) == Drop(tree, first + second)
  {
    if tree.Obj? {
      var once := Drop(tree, first);
      var twice := Drop(once, second);
      var both := Drop(tree, first + second);
      forall k | k in both.fields
        ensures k in twice.fields && twice.fields[k] == both.fields[k]
      {
        assert Under(first + second, k) == Under(first, k) + Under(second, k);
        DropTwice(tree.fields[k], Under(first, k), Under(second, k));
      }
      assert twice.fields.Keys == both.fields.Keys;
      assert twice.fields == both.fields;
    }
  }

  /** No path of `paths` is `path` itself or leads to it. */
  ghost predicate Untouched(paths: set<Path>, path: Path) {
    forall q | q in paths :: !(q <= path)
  }

  lemma {:induction false} PrefixUnderField(q: Path, path: Path)
    requires path != []
    ensures q <= path[1..] <==> [path[0]] + q <= path
  {
  }

  /** Removing fields that do not lead to `path` changes nothing about `path`. */
  lemma {:induction false} DropElsewhere(tree: Json, paths: set<Path>, path: Path)
    requires path != [] && Untouched(paths, path)
    ensures MeetsArray(Drop(tree, paths), path) == MeetsArray(tree, path)
    ensures Resolves(Drop(tree, paths), path) == Resolves(tree, path)
  {
    if tree.Obj? {
      assert [path[0]] <= path;
      if path[0] in tree.fields && |path| > 1 {
        var under := Under(paths, path[0]);
        forall q | q in under
          ensures !(q <= path[1..])
        {
          assert [path[0]] + q in paths by {
            var p :| p in paths && |p| > 1 && p[0] == path[0] && p[1..] == q;
            assert p == [path[0]] + q;
          }
          PrefixUnderField(q, path);
        }
        DropElsewhere(tree.fields[path[0]], under, path[1..]);
      }
    }
  }

  /** The longer of two different paths never leads to the shorter one. */
  lemma {:induction false} DeeperIsElsewhere(q: Path, p: Path)
    requires |q| >= |p| && q != p
    ensures !(q <= p)
  {
  }

  /** Pruning leaves nothing of the pruned paths. */
  lemma {:induction false} DropRemoves(tree: Json, paths: set<Path>, path: Path)
    requires path != [] && path in paths
    ensures !Resolves(Drop(tree, paths), path)
  {
    if tree.Obj? && path[0] in tree.fields && |path| > 1 && [path[0]] !in paths {
      DropRemoves(tree.fields[path[0]], Under(paths, path[0]), path[1..]);
    } else if |path| == 1 {
      assert path == [path[0]];
    }
  }

  /** Pruning a pruned tree finds nothing and changes nothing. */
  lemma {:induction false} PruningIsIdempotent(tree: Json, paths: set<Path>)
    requires forall p | p in paths :: p != []
    ensures Drop(Drop(tree, paths), paths) == Drop(tree, paths)
    ensures forall p | p in paths :: !Resolves(Drop(tree, paths), p)
  {
    DropTwice(tree, paths, paths);
    assert paths + paths == paths;
    forall p | p in paths
      ensures !Resolves(Drop(tree, paths), p)
    {
      DropRemoves(tree, paths, p);
    }
  }

  // --------------------------------------------------- the deepest-first plan

  datatype Exclusion = Exclusion(pointer: string, path: Path)

  const DEFAULT_EXCLUDED_PATHS: seq<string> := ["/event_id", "/timestamp", "/request_id"]

  /** Lexicographic order of code points, Python's order of strings. */
  predicate LexLess(a: string, b: string) {
    b != "" && (a == "" || a[0] < b[0] || (a[0] == b[0] && LexLess(a[1..], b[1..])))
  }

  /** The sort key `(-len(parts), pointer)`. */
  predicate Precedes(x: Exclusion, y: Exclusion) {
    |x.path| > |y.path| || (|x.path| == |y.path| && LexLess(x.pointer, y.pointer))
  }

  function InsertExclusion(x: Exclusion, sorted: seq<Exclusion>): seq<Exclusion> {
    if sorted == [] || Precedes(x, sorted[0]) then [x] + sorted
    else [sorted[0]] + InsertExclusion(x, sorted[1..])
  }

  /** `sorted(decoded.items(), key=...)` over the distinct pointers. */
  function SortExclusions(pointers: seq<string>): seq<Exclusion>
    requires forall p | p in pointers :: IsPointer(p)
  {
    if pointers == [] then []
    else
      var front := pointers[..|pointers| - 1];
      var last := pointers[|pointers| - 1];
      var sorted := SortExclusions(front);
      if last in front then sorted else InsertExclusion(Exclusion(last, Parts(last)), sorted)
  }

  ghost predicate DeepestFirst(xs: seq<Exclusion>) {
    forall i, j | 0 <= i < j < |xs| :: |xs[i].path| >= |xs[j].path|
  }

  lemma {:induction false} LexLessIsTotal(a: string, b: string)
    ensures a != b ==> LexLess(a, b) || LexLess(b, a)
    ensures !(LexLess(a, b) && LexLess(b, a)) && !LexLess(a, a)
  {
    if a != "" && b != "" && a[0] == b[0] {
      LexLessIsTotal(a[1..], b[1..]);
      assert a == [a[0]] + a[1..] && b == [b[0]] + b[1..];
    }
    if a != "" {
      LexLessIsIrreflexive(a);
    }
  }

  lemma {:induction false} LexLessIsIrreflexive(a: string)
    ensures !LexLess(a, a)
  {
    if a != "" {
      LexLessIsIrreflexive(a[1..]);
    }
  }

  /** Up to `k` the texts agree, and there `a` ends or has the smaller character. */
  ghost predicate SmallerAt(a: string, b: string, k: nat) {
    k <= |a| && k < |b| && (forall i | 0 <= i < k :: a[i] == b[i]) && (k == |a| || a[k] < b[k])
  }

  lemma {:induction false} SmallerLater(a: string, b: string, k: nat)
    requires a != "" && b != "" && a[0] == b[0]
    ensures SmallerAt(a[1..], b[1..], k) <==> SmallerAt(a, b, k + 1)
  {
    if SmallerAt(a[1..], b[1..], k) {
      forall i | 0 <= i < k + 1
        ensures a[i] == b[i]
      {
        assert i > 0 ==> a[1..][i - 1] == b[1..][i - 1];
      }
    }
  }

  /** One text comes before another when it is a proper beginning of it, or smaller at the
      first character in which they differ. */
  lemma {:induction false} LexLessMeaning(a: string, b: string)
    ensures LexLess(a, b) <==> exists k: nat :: SmallerAt(a, b, k)
  {
    if a == "" || b == "" || a[0] != b[0] {
      assert SmallerAt(a, b, 0) <==> LexLess(a, b);
    } else {
      LexLessMeaning(a[1..], b[1..]);
      if k: nat :| SmallerAt(a[1..], b[1..], k) {
        SmallerLater(a, b, k);
      }
      if k: nat :| SmallerAt(a, b, k) {
        SmallerLater(a, b, k - 1);
      }
    }
  }

  lemma {:induction false} LexLessIsTransitive(a: string, b: string, c: string)
    requires LexLess(a, b) && LexLess(b, c)
    ensures LexLess(a, c)
  {
    if a != "" && a[0] == b[0] == c[0] {
      LexLessIsTransitive(a[1..], b[1..], c[1..]);
    }
  }

  lemma {:induction false} PrecedesIsTransitive(x: Exclusion, y: Exclusion, z: Exclusion)
    requires Precedes(x, y) && Precedes(y, z)
    ensures Precedes(x, z)
  {
    if |x.path| == |z.path| {
      LexLessIsTransitive(x.pointer, y.pointer, z.pointer);
    }
  }

  /** Every exclusion comes before all later ones, by depth and then by text. */
  ghost predicate InPlanOrder(xs: seq<Exclusion>) {
    forall i, j | 0 <= i < j < |xs| :: Precedes(xs[i], xs[j])
  }

  lemma {:induction false} InsertInPlanOrder(x: Exclusion, sorted: seq<Exclusion>)
    requires InPlanOrder(sorted) && forall y | y in sorted :: y.pointer != x.pointer
    ensures InPlanOrder(InsertExclusion(x, sorted))
    ensures forall y :: y in InsertExclusion(x, sorted) <==> y == x || y in sorted
  {
    if sorted != [] {
      var head, tail := sorted[0], sorted[1..];
      assert sorted == [head] + tail;
      assert head in sorted;
      LexLessIsTotal(x.pointer, head.pointer);
      if Precedes(x, head) {
        forall j | 0 <= j < |sorted|
          ensures Precedes(x, sorted[j])
        {
          if j > 0 {
            PrecedesIsTransitive(x, head, sorted[j]);
          }
        }
      } else {
        assert forall j | 0 <= j < |tail| :: tail[j] == sorted[j + 1];
        InsertInPlanOrder(x, tail);
        var rest := InsertExclusion(x, tail);
        forall j | 0 <= j < |rest|
          ensures Precedes(head, rest[j])
        {
          assert rest[j] in rest;
        }
      }
    }
  }

  /** There is only one way to put a set of exclusions in plan order. */
  lemma {:induction false} PlanOrderIsUnique(xs: seq<Exclusion>, ys: seq<Exclusion>)
    requires InPlanOrder(xs) && InPlanOrder(ys)
    requires forall x :: x in xs <==> x in ys
    ensures xs == ys
  {
    assert xs != [] ==> xs[0] in ys;
    assert ys != [] ==> ys[0] in xs;
    if xs != [] {
      SameLeast(xs, ys);
      var x := xs[0];
      assert xs == [x] + xs[1..] && ys == [x] + ys[1..];
      LexLessIsTotal(x.pointer, x.pointer);
      assert !Precedes(x, x);
      assert x !in xs[1..] && x !in ys[1..];
      forall z
        ensures z in xs[1..] <==> z in ys[1..]
      {
        assert z in xs <==> z == x || z in xs[1..];
        assert z in ys <==> z == x || z in ys[1..];
      }
      PlanOrderIsUnique(xs[1..], ys[1..]);
    }
  }

  lemma {:induction false} SameLeast(xs: seq<Exclusion>, ys: seq<Exclusion>)
    requires InPlanOrder(xs) && InPlanOrder(ys) && xs != [] && ys != []
    requires xs[0] in ys && ys[0] in xs
    ensures xs[0] == ys[0]
  {
    LexLessIsTotal(xs[0].pointer, ys[0].pointer);
  }

  lemma {:induction false} PlanOrderMeaning(xs: seq<Exclusion>)
    requires InPlanOrder(xs)
    ensures DeepestFirst(xs) && Distinct(xs)
  {
    forall i, j | 0 <= i < j < |xs|
      ensures |xs[i].path| >= |xs[j].path| && xs[i] != xs[j]
    {
      assert Precedes(xs[i], xs[j]);
      LexLessIsTotal(xs[i].pointer, xs[j].pointer);
    }
  }

  /** The plan holds every pointer once, deeper paths first and equally deep ones by
      their text. */
  lemma {:induction false} SortExclusionsMeaning(pointers: seq<string>)
    requires forall p | p in pointers :: IsPointer(p)
    ensures InPlanOrder(SortExclusions(pointers))
    ensures DeepestFirst(SortExclusions(pointers)) && Distinct(SortExclusions(pointers))
    ensures forall x :: x in SortExclusions(pointers) <==> x.pointer in pointers && x.path == Parts(x.pointer)
  {
    if pointers != [] {
      var front, last := pointers[..|pointers| - 1], pointers[|pointers| - 1];
      assert pointers == front + [last];
      SortExclusionsMeaning(front);
      if last !in front {
        InsertInPlanOrder(Exclusion(last, Parts(last)), SortExclusions(front));
      }
    }
    PlanOrderMeaning(SortExclusions(pointers));
  }

  /** The plan depends on the set of pointers only: not on their order, and not on how
      often one is given. */
  lemma {:induction false} PlanIgnoresInputOrder(ps: seq<string>, qs: seq<string>)
    requires forall p | p in ps :: IsPointer(p)
    requires forall p :: p in ps <==> p in qs
    ensures SortExclusions(ps) == SortExclusions(qs)
  {
    SortExclusionsMeaning(ps);
    SortExclusionsMeaning(qs);
    PlanOrderIsUnique(SortExclusions(ps), SortExclusions(qs));
  }

  // ------------------------------------------------------ action fingerprints

  const SAFE_INTEGER_MAX: int := 9007199254740991 // 2^53 - 1

  predicate SafeIntegers(tree: Json) {
    match tree
    case Int(n) => -SAFE_INTEGER_MAX <= n <= SAFE_INTEGER_MAX
    case Arr(items) => forall item | item in items :: SafeIntegers(item)
    case Obj(fields) => forall k | k in fields :: SafeIntegers(fields[k])
    case _ => true
  }

  /** RFC 8785 writes a number by its value, so `1` and `1.0` are one number. */
  function Canonical(tree: Json): Json {
    match tree
    case Int(n) => Float(n as real)
    case Arr(items) => Arr(seq(|items|, i requires 0 <= i < |items| => Canonical(items[i])))
    case Obj(fields) => Obj(map k | k in fields :: Canonical(fields[k]))
    case _ => tree
  }

  ghost predicate IsNumber(j: Json, value: real) {
    (j.Int? && j.number as real == value) || (j.Float? && j.quantity == value)
  }

  /** Two JSON values are the same: numbers by value, arrays item by item, objects key by
      key, and everything else only as itself. */
  ghost predicate SameValue(a: Json, b: Json)
    decreases a
  {
    match a
    case Null => b.Null?
    case Bool(flag) => b.Bool? && b.flag == flag
    case Int(n) => IsNumber(b, n as real)
    case Float(q) => IsNumber(b, q)
    case Str(text) => b.Str? && b.text == text
    case Arr(items) => b.Arr? && |b.items| == |items| && forall i | 0 <= i < |items| :: SameValue(items[i], b.items[i])
    case Obj(fields) =>
      b.Obj? && b.fields.Keys == fields.Keys && forall k | k in fields :: SameValue(fields[k], b.fields[k])
  }

  lemma {:induction false} CanonicalItems(xs: seq<Json>, ys: seq<Json>)
    requires |xs| == |ys|
    ensures Canonical(Arr(xs)) == Canonical(Arr(ys)) <==>
      forall i | 0 <= i < |xs| :: Canonical(xs[i]) == Canonical(ys[i])
  {
    var cs, ds := Canonical(Arr(xs)).items, Canonical(Arr(ys)).items;
    assert forall i | 0 <= i < |xs| :: cs[i] == Canonical(xs[i]) && ds[i] == Canonical(ys[i]);
  }

  lemma {:induction false} CanonicalFields(xs: map<string, Json>, ys: map<string, Json>)
    ensures Canonical(Obj(xs)) == Canonical(Obj(ys)) <==>
      xs.Keys == ys.Keys && forall k | k in xs :: Canonical(xs[k]) == Canonical(ys[k])
  {
    var cs, ds := Canonical(Obj(xs)).fields, Canonical(Obj(ys)).fields;
    assert cs.Keys == xs.Keys && ds.Keys == ys.Keys;
    assert forall k | k in xs :: cs[k] == Canonical(xs[k]);
    assert forall k | k in ys :: ds[k] == Canonical(ys[k]);
    if xs.Keys == ys.Keys && forall k | k in xs :: Canonical(xs[k]) == Canonical(ys[k]) {
      assert cs == ds;
    }
  }

  /** Canonical bytes identify exactly the same values. */
  lemma {:induction false} CanonicalMeaning(a: Json, b: Json)
    ensures Canonical(a) == Canonical(b) <==> SameValue(a, b)
    decreases a
  {
    match a
    case Arr(items) =>
      if b.Arr? && |b.items| == |items| {
        CanonicalItems(items, b.items);
        forall i | 0 <= i < |items|
          ensures Canonical(items[i]) == Canonical(b.items[i]) <==> SameValue(items[i], b.items[i])
        {
          CanonicalMeaning(items[i], b.items[i]);
        }
      } else if b.Arr? {
        assert |Canonical(a).items| == |items| && |Canonical(b).items| == |b.items|;
      }
    case Obj(fields) =>
      if b.Obj? {
        CanonicalFields(fields, b.fields);
        forall k | k in fields && k in b.fields
          ensures Canonical(fields[k]) == Canonical(b.fields[k]) <==> SameValue(fields[k], b.fields[k])
        {
          CanonicalMeaning(fields[k], b.fields[k]);
        }
      }
    case _ =>
  }

  /** A step down into a value. */
  datatype Step = Key(key: string) | Index(index: nat)

  /** What is found at the end of a path of steps, if it leads anywhere. */
  ghost function At(tree: Json, steps: seq<Step>): Option<Json>
    decreases |steps|
  {
    if steps == [] then Some(tree)
    else
      match steps[0]
      case Key(k) => if tree.Obj? && k in tree.fields then At(tree.fields[k], steps[1..]) else None
      case Index(i) => if tree.Arr? && i < |tree.items| then At(tree.items[i], steps[1..]) else None
  }

  ghost predicate HoldsInteger(tree: Json, n: int) {
    exists steps :: At(tree, steps) == Some(Int(n))
  }

  lemma {:induction false} UnsafeIsFound(tree: Json) returns (steps: seq<Step>)
    requires !SafeIntegers(tree)
    ensures At(tree, steps).Some? && At(tree, steps).value.Int? && Beyond(At(tree, steps).value.number)
  {
    match tree
    case Int(_) => steps := [];
    case Arr(items) =>
      var i :| 0 <= i < |items| && !SafeIntegers(items[i]);
      var rest := UnsafeIsFound(items[i]);
      steps := [Index(i)] + rest;
      assert steps[1..] == rest;
    case Obj(fields) =>
      var k :| k in fields && !SafeIntegers(fields[k]);
      var rest := UnsafeIsFound(fields[k]);
      steps := [Key(k)] + rest;
      assert steps[1..] == rest;
  }

  predicate Beyond(n: int) {
    n <= -0x20_0000_0000_0000 || n >= 0x20_0000_0000_0000
  }

  lemma {:induction false} FoundIsSafe(tree: Json, steps: seq<Step>)
    requires SafeIntegers(tree) && At(tree, steps).Some?
    ensures SafeIntegers(At(tree, steps).value)
    decreases |steps|
  {
    if steps != [] {
      match steps[0]
      case Key(k) => FoundIsSafe(tree.fields[k], steps[1..]);
      case Index(i) => FoundIsSafe(tree.items[i], steps[1..]);
    }
  }

  /** Integers are safe exactly when none of 2^53 or more, either way, is anywhere inside. */
  lemma {:induction false} SafeIntegersMeaning(tree: Json)
    ensures SafeIntegers(tree) <==> forall n | Beyond(n) :: !HoldsInteger(tree, n)
  {
    if SafeIntegers(tree) {
      forall n | Beyond(n)
        ensures !HoldsInteger(tree, n)
      {
        forall steps
          ensures At(tree, steps) != Some(Int(n))
        {
          if At(tree, steps).Some? {
            FoundIsSafe(tree, steps);
          }
        }
      }
    } else {
      var steps := UnsafeIsFound(tree);
      assert HoldsInteger(tree, At(tree, steps).value.number);
    }
  }

  datatype FingerprintError = UnsafeJsonInteger | InvalidExclusionPath | InvalidJson

  /** The digest stands for SHA-256 of the canonical bytes: it is the canonical
      value itself, so equal digests mean equal canonical values. */
  datatype Fingerprint = Fingerprint(digest: Json, excludedFields: set<string>)

  /** Canonicalization takes a tree that is a string for JSON text and loads it;
      `reparsed` is what its loader makes of that string, `None` when it refuses it.
      Every other tree is written as it is. */
  function DigestOf(tree: Json, reparsed: Option<Json>): Result<Json, FingerprintError> {
    if !tree.Str? then Ok(Canonical(tree))
    else if reparsed.None? then Err(InvalidJson)
    else if !SafeIntegers(reparsed.value) then Err(UnsafeJsonInteger)
    else Ok(Canonical(reparsed.value))
  }

  ghost function PathsOf(pointers: seq<string>): set<Path>
    requires forall p | p in pointers :: IsPointer(p)
  {
    set p | p in pointers :: Parts(p)
  }

  ghost predicate SomePointerMeetsArray(tree: Json, pointers: seq<string>)
    requires forall p | p in pointers :: IsPointer(p)
  {
    exists p :: p in pointers && MeetsArray(tree, Parts(p))
  }

  ghost function ResolvingSet(tree: Json, pointers: seq<string>): set<string>
    requires forall p | p in pointers :: IsPointer(p)
  {
    set p | p in pointers && Resolves(tree, Parts(p))
  }

  /** What a fingerprint means, with no order of removal in it. */
  ghost function FingerprintWithout(tree: Json, reparsed: Option<Json>, pointers: seq<string>):
      Result<Fingerprint, FingerprintError> {
    if !SafeIntegers(tree) then Err(UnsafeJsonInteger)
    else if !(forall p | p in pointers :: IsPointer(p)) then Err(InvalidExclusionPath)
    else if SomePointerMeetsArray(tree, pointers) then Err(InvalidExclusionPath)
    else Digested(DigestOf(Drop(tree, PathsOf(pointers)), reparsed), ResolvingSet(tree, pointers))
  }

  function Digested(digest: Result<Json, FingerprintError>, excluded: set<string>):
      Result<Fingerprint, FingerprintError> {
    if digest.Err? then Err(digest.error) else Ok(Fingerprint(digest.value, excluded))
  }

  /** Caller paths are additive to the defaults. */
  ghost function FingerprintOf(tree: Json, reparsed: Option<Json>, excluded: seq<string>):
      Result<Fingerprint, FingerprintError> {
    FingerprintWithout(tree, reparsed, DEFAULT_EXCLUDED_PATHS + excluded)
  }

  /** A removal order the source can produce: distinct pointers, deepest first. */
  ghost predicate SoundPlan(plan: seq<Exclusion>) {
    && DeepestFirst(plan)
    && Distinct(plan)
    && forall i | 0 <= i < |plan| :: IsPointer(plan[i].pointer) && plan[i].path == Parts(plan[i].pointer)
  }

  /** The paths of the first `n` exclusions. */
  ghost function PlanPaths(plan: seq<Exclusion>, n: nat): set<Path>
    requires n <= |plan|
  {
    if n == 0 then {} else PlanPaths(plan, n - 1) + {plan[n - 1].path}
  }

  /** Those of the first `n` pointers that resolve in the ORIGINAL tree, in order. */
  ghost function ResolvingPointers(tree: Json, plan: seq<Exclusion>, n: nat): seq<string>
    requires n <= |plan| && SoundPlan(plan)
  {
    if n == 0 then []
    else ResolvingPointers(tree, plan, n - 1) + if Resolves(tree, plan[n - 1].path) then [plan[n - 1].pointer] else []
  }

  lemma {:induction false} PlanPathsMembers(plan: seq<Exclusion>, n: nat)
    requires n <= |plan|
    ensures forall q :: q in PlanPaths(plan, n) <==> exists j :: 0 <= j < n && plan[j].path == q
  {
    if n > 0 {
      PlanPathsMembers(plan, n - 1);
    }
  }

  lemma {:induction false} ResolvingPointersMembers(tree: Json, plan: seq<Exclusion>, n: nat)
    requires n <= |plan| && SoundPlan(plan)
    ensures forall p :: p in ResolvingPointers(tree, plan, n) <==>
      exists j :: 0 <= j < n && plan[j].pointer == p && Resolves(tree, plan[j].path)
  {
    if n > 0 {
      ResolvingPointersMembers(tree, plan, n - 1);
    }
  }

  /** What has been removed so far does not lead to the next path. */
  lemma {:induction false} EarlierIsElsewhere(plan: seq<Exclusion>, i: nat)
    requires i < |plan| && SoundPlan(plan)
    ensures Untouched(PlanPaths(plan, i), plan[i].path)
  {
    PlanPathsMembers(plan, i);
    forall q | q in PlanPaths(plan, i)
      ensures !(q <= plan[i].path)
    {
      var j :| 0 <= j < i && plan[j].path == q;
      if q == plan[i].path {
        PartsInjective(plan[j].pointer, plan[i].pointer);
      }
      DeeperIsElsewhere(q, plan[i].path);
    }
  }

  /** One step of the loop, judged against the ORIGINAL tree. */
  lemma {:induction false} PruneStep(tree: Json, plan: seq<Exclusion>, i: nat)
    requires i < |plan| && SoundPlan(plan)
    ensures var step := RemovePath(Drop(tree, PlanPaths(plan, i)), plan[i].path);
      && (step.None? <==> MeetsArray(tree, plan[i].path))
      && (step.Some? ==> step.value == (Resolves(tree, plan[i].path), Drop(tree, PlanPaths(plan, i + 1))))
  {
    var gone := PlanPaths(plan, i);
    var path := plan[i].path;
    EarlierIsElsewhere(plan, i);
    DropElsewhere(tree, gone, path);
    RemovePathMeaning(Drop(tree, gone), path);
    DropTwice(tree, gone, {path});
  }

  ghost predicate PlanMeetsArray(tree: Json, plan: seq<Exclusion>)
    requires SoundPlan(plan)
  {
    exists i :: 0 <= i < |plan| && MeetsArray(tree, plan[i].path)
  }

  /** Prunes a private copy one exclusion at a time, deepest first. */
  method Prune(tree: Json, plan: seq<Exclusion>) returns (r: Option<(Json, seq<string>)>)
    requires SoundPlan(plan)
    ensures r.None? <==> PlanMeetsArray(tree, plan)
    ensures r.Some? ==> r.value == (Drop(tree, PlanPaths(plan, |plan|)), ResolvingPointers(tree, plan, |plan|))
  {
    var copied := tree;
    var removed: seq<string> := [];
    DropNothing(tree);
    for i := 0 to |plan|
      invariant copied == Drop(tree, PlanPaths(plan, i))
      invariant removed == ResolvingPointers(tree, plan, i)
      invariant forall j | 0 <= j < i :: !MeetsArray(tree, plan[j].path)
    {
      PruneStep(tree, plan, i);
      var step := RemovePath(copied, plan[i].path);
      if step.None? {
        return None;
      }
      copied := step.value.1;
      if step.value.0 {
        removed := removed + [plan[i].pointer];
      }
    }
    return Some((copied, removed));
  }

  lemma {:induction false} SortedPlanIsSound(pointers: seq<string>)
    requires forall p | p in pointers :: IsPointer(p)
    ensures SoundPlan(SortExclusions(pointers))
    ensures forall p :: p in pointers <==>
      exists i :: 0 <= i < |SortExclusions(pointers)| && SortExclusions(pointers)[i].pointer == p
  {
    var plan := SortExclusions(pointers);
    SortExclusionsMeaning(pointers);
    assert forall i | 0 <= i < |plan| :: plan[i] in plan;
    forall p | p in pointers
      ensures exists i :: 0 <= i < |plan| && plan[i].pointer == p
    {
      assert Exclusion(p, Parts(p)) in plan;
    }
  }

  lemma {:induction false} PlanPathsOfSorted(pointers: seq<string>)
    requires forall p | p in pointers :: IsPointer(p)
    ensures var plan := SortExclusions(pointers); PlanPaths(plan, |plan|) == PathsOf(pointers)
  {
    var plan := SortExclusions(pointers);
    SortedPlanIsSound(pointers);
    PlanPathsMembers(plan, |plan|);
  }

  lemma {:induction false} ResolvingOfSorted(tree: Json, pointers: seq<string>)
    requires forall p | p in pointers :: IsPointer(p)
    ensures var plan := SortExclusions(pointers);
      && SoundPlan(plan)
      && Elements(ResolvingPointers(tree, plan, |plan|)) == ResolvingSet(tree, pointers)
  {
    var plan := SortExclusions(pointers);
    SortedPlanIsSound(pointers);
    ResolvingPointersMembers(tree, plan, |plan|);
  }

  lemma {:induction false} ArraysOfSorted(tree: Json, pointers: seq<string>)
    requires forall p | p in pointers :: IsPointer(p)
    ensures var plan := SortExclusions(pointers);
      && SoundPlan(plan)
      && (PlanMeetsArray(tree, plan) <==> SomePointerMeetsArray(tree, pointers))
  {
    SortedPlanIsSound(pointers);
  }

  /** The plan's outcome is the fingerprint, which mentions no plan. */
  lemma {:induction false} PlanGivesFingerprint(tree: Json, reparsed: Option<Json>, pointers: seq<string>)
    requires SafeIntegers(tree)
    requires forall p | p in pointers :: IsPointer(p)
    ensures var plan := SortExclusions(pointers);
      && SoundPlan(plan)
      && FingerprintWithout(tree, reparsed, pointers) ==
         if PlanMeetsArray(tree, plan) then Err(InvalidExclusionPath)
         else Digested(DigestOf(Drop(tree, PlanPaths(plan, |plan|)), reparsed),
                       Elements(ResolvingPointers(tree, plan, |plan|)))
  {
    PlanPathsOfSorted(pointers);
    ResolvingOfSorted(tree, pointers);
    ArraysOfSorted(tree, pointers);
  }

  method FingerprintByPruning(tree: Json, reparsed: Option<Json>, pointers: seq<string>)
    returns (r: Result<Fingerprint, FingerprintError>)
    ensures r == FingerprintWithout(tree, reparsed, pointers)
  {
    if !SafeIntegers(tree) {
      return Err(UnsafeJsonInteger);
    }
    var decodable := AllDecodable(pointers);
    if !decodable {
      return Err(InvalidExclusionPath);
    }
    PlanGivesFingerprint(tree, reparsed, pointers);
    var plan := SortExclusions(pointers);
    var pruned := Prune(tree, plan);
    if pruned.None? {
      return Err(InvalidExclusionPath);
    }
    return Digested(DigestOf(pruned.value.0, reparsed), Elements(pruned.value.1));
  }

  /** The source's fingerprint: decode every pointer, sort, prune, digest. */
  method ActionFingerprint(tree: Json, reparsed: Option<Json>, excluded: seq<string>)
    returns (r: Result<Fingerprint, FingerprintError>)
    ensures r == FingerprintOf(tree, reparsed, excluded)
  {
    r := FingerprintByPruning(tree, reparsed, DEFAULT_EXCLUDED_PATHS + excluded);
  }

  method AllDecodable(pointers: seq<string>) returns (ok: bool)
    ensures ok <==> forall p | p in pointers :: IsPointer(p)
  {
    for i := 0 to |pointers|
      invariant forall j | 0 <= j < i :: IsPointer(pointers[j])
    {
      var decoded := PointerParts(pointers[i]);
      if decoded.None? {
        assert pointers[i] in pointers;
        return false;
      }
    }
    return true;
  }

  // ------------------------------------------------------ default exclusions

  lemma {:induction false} PlainToken(token: string)
    requires '~' !in token && '/' !in token
    ensures ValidToken(token) && Unescape(token) == token
  {
    if token != "" {
      PlainToken(token[1..]);
    }
  }

  lemma {:induction false} PlainPointer(token: string)
    requires '~' !in token && '/' !in token
    ensures IsPointer("/" + token) && Parts("/" + token) == [token]
  {
    PlainToken(token);
    SplitToken(token, "", '/');
    assert ("/" + token)[1..] == token;
  }

  /** Top-level fields named by plain tokens, pruned together. */
  lemma {:induction false} PlainFields(names: seq<string>, pointers: seq<string>)
    requires |names| == |pointers|
    requires forall i | 0 <= i < |names| :: '~' !in names[i] && '/' !in names[i] && pointers[i] == "/" + names[i]
    ensures forall p | p in pointers :: IsPointer(p) && |Parts(p)| == 1
    ensures PathsOf(pointers) == set k | k in names :: [k]
  {
    forall i | 0 <= i < |names|
      ensures IsPointer(pointers[i]) && Parts(pointers[i]) == [names[i]]
    {
      PlainPointer(names[i]);
    }
    forall i | 0 <= i < |names|
      ensures [names[i]] in PathsOf(pointers)
    {
      assert pointers[i] in pointers;
    }
    forall path | path in PathsOf(pointers)
      ensures path in set k | k in names :: [k]
    {
      var i :| 0 <= i < |names| && Parts(pointers[i]) == path;
      assert names[i] in names;
    }
  }

  /** Dropping top-level fields is map subtraction. */
  lemma {:induction false} DropTopLevel(tree: Json, names: set<string>)
    ensures Drop(tree, set k | k in names :: [k]) == if tree.Obj? then Obj(tree.fields - names) else tree
  {
    var paths := set k | k in names :: [k];
    if tree.Obj? {
      var fields := tree.fields;
      forall k | k in fields
        ensures Drop(fields[k], Under(paths, k)) == fields[k]
      {
        assert Under(paths, k) == {};
        DropNothing(fields[k]);
      }
      forall k: string
        ensures [k] in paths <==> k in names
      {
        if [k] in paths {
          var n :| n in names && [n] == [k];
          assert [n][0] == [k][0];
        }
      }
      assert Drop(tree, paths).fields == fields - names;
    }
  }

  /** A tree that canonicalization loads again, and cannot. */
  predicate Unreadable(tree: Json, reparsed: Option<Json>) {
    tree.Str? && (reparsed.None? || !SafeIntegers(reparsed.value))
  }

  /** The value whose canonical bytes are digested. */
  function Digestible(tree: Json, reparsed: Option<Json>, names: set<string>): Json
    requires !Unreadable(tree, reparsed)
  {
    match tree
    case Obj(fields) => Obj(fields - names)
    case Str(_) => reparsed.value
    case _ => tree
  }

  /** Fingerprints that exclude only top-level fields: what the digest is, and
      exactly when there is none. A top-level array has none, whatever it holds,
      unless it comes from a string that the loader gave back as a string. */
  lemma {:induction false} PlainFingerprint(
    tree: Json, reparsed: Option<Json>, names: seq<string>, pointers: seq<string>)
    requires 0 < |names| == |pointers|
    requires forall i | 0 <= i < |names| :: '~' !in names[i] && '/' !in names[i] && pointers[i] == "/" + names[i]
    ensures FingerprintWithout(tree, reparsed, pointers).Err? <==>
      tree.Arr? || !SafeIntegers(tree) || Unreadable(tree, reparsed)
    ensures FingerprintWithout(tree, reparsed, pointers).Ok? ==>
      FingerprintWithout(tree, reparsed, pointers).value.digest ==
        Canonical(Digestible(tree, reparsed, Elements(names)))
  {
    PlainFields(names, pointers);
    DropTopLevel(tree, Elements(names));
    assert (set k | k in names :: [k]) == set k | k in Elements(names) :: [k];
    assert pointers[0] in pointers;
  }

  const VOLATILE_FIELDS: seq<string> := ["event_id", "timestamp", "request_id"]

  lemma {:induction false} DefaultFingerprint(tree: Json, reparsed: Option<Json>)
    ensures FingerprintOf(tree, reparsed, []).Err? <==>
      tree.Arr? || !SafeIntegers(tree) || Unreadable(tree, reparsed)
    ensures FingerprintOf(tree, reparsed, []).Ok? ==>
      FingerprintOf(tree, reparsed, []).value.digest ==
        Canonical(Digestible(tree, reparsed, Elements(VOLATILE_FIELDS)))
  {
    assert DEFAULT_EXCLUDED_PATHS + [] == DEFAULT_EXCLUDED_PATHS;
    PlainFingerprint(tree, reparsed, VOLATILE_FIELDS, DEFAULT_EXCLUDED_PATHS);
  }
}
