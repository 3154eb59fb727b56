/**
  The dot-path codec between nested translation files and flat string
  tables: `flatten` turns nested objects into keys joined with `.`, and
  `unflatten` splits keys on `.` and rebuilds the nesting. The service and
  the single-file app define the same pair of functions.

  A tree is a JSON object's fields. `unflatten` mutates nested dicts in
  place; here it rebuilds them, and stepping into a value that is not a
  dict, which raises `TypeError` in Python, gives `None`.

  Recursion into nested objects is measured on the object itself, so the
  loops over an object's fields run by index.
 */
module PathCodec {
  import opened Wrappers
  import opened Text
  import opened Dicts
  import opened Json

  /** No value is a dict. */
  predicate NoObjects(d: Dict<string, Json>) {
    forall i :: 0 <= i < |d| ==> !d[i].1.JObj?
  }

  lemma {:induction false} PutNoObjects(d: Dict<string, Json>, k: string, v: Json)
    requires NoObjects(d) && !v.JObj?
    ensures NoObjects(Put(d, k, v))
    decreases |d|
  {
    if |d| > 0 && d[0].0 != k {
      PutNoObjects(d[1..], k, v);
    }
  }

  lemma {:induction false} UpdateNoObjects(d: Dict<string, Json>, e: Dict<string, Json>)
    requires NoObjects(d) && NoObjects(e)
    ensures NoObjects(Update(d, e))
    decreases |e|
  {
    if |e| > 0 {
      PutNoObjects(d, e[0].0, e[0].1);
      UpdateNoObjects(Put(d, e[0].0, e[0].1), e[1..]);
    }
  }

  // ----------------------------------------------------------------- flatten

  /** `flatten_json(nested, prefix)`: no value it produces is a dict, and every key starts with `prefix`. */
  function Flatten(fields: Dict<string, Json>, prefix: string): (r: Dict<string, Json>)
    ensures UniqueKeys(r) && NoObjects(r)
    ensures forall x :: HasKey(r, x) ==> StartsAt(x, 0, prefix)
    decreases JObj(fields), 1
  {
    FlattenFrom([], fields, 0, prefix)
  }

  /** The loop of `flatten_json` from the `i`-th field on, with the entries produced so far in `acc`. */
  function FlattenFrom(acc: Dict<string, Json>, fields: Dict<string, Json>, i: nat, prefix: string): (r: Dict<string, Json>)
    requires i <= |fields|
    ensures UniqueKeys(acc) ==> UniqueKeys(r)
    ensures NoObjects(acc) ==> NoObjects(r)
    ensures forall x :: HasKey(r, x) ==> HasKey(acc, x) || StartsAt(x, 0, prefix)
    decreases JObj(fields), 0, |fields| - i
  {
    if i == |fields| then acc
    else
      assert fields[i] in fields;
      var acc' := FlattenEntry(acc, fields[i].0, fields[i].1, prefix);
      assert forall x :: HasKey(acc', x) ==> HasKey(acc, x) || StartsAt(x, 0, prefix) by {
        forall x | HasKey(acc', x) && !HasKey(acc, x) ensures StartsAt(x, 0, prefix) {
          LongerPrefix(x, prefix, fields[i].0);
        }
      }
      FlattenFrom(acc', fields, i + 1, prefix)
  }

  /** One iteration: a dict value is flattened under `key.`, any other value is stored under `key`. */
  function FlattenEntry(acc: Dict<string, Json>, key: string, value: Json, prefix: string): (r: Dict<string, Json>)
    ensures UniqueKeys(acc) ==> UniqueKeys(r)
    ensures NoObjects(acc) ==> NoObjects(r)
    ensures forall x :: HasKey(r, x) ==> HasKey(acc, x) || StartsAt(x, 0, prefix + key)
    decreases value, 2
  {
    if value.JObj? then
      var sub := Flatten(value.fields, prefix + key + ".");
      var r := Update(acc, sub);
      assert forall x :: HasKey(r, x) && !HasKey(acc, x) ==> StartsAt(x, 0, prefix + key) by {
        forall x | HasKey(r, x) && !HasKey(acc, x) ensures StartsAt(x, 0, prefix + key) {
          LongerPrefix(x, prefix + key, ".");
        }
      }
      if NoObjects(acc) then UpdateNoObjects(acc, sub); r else r
    else
      var r := Put(acc, prefix + key, value);
      assert forall x :: HasKey(r, x) && !HasKey(acc, x) ==> StartsAt(x, 0, prefix + key);
      if NoObjects(acc) then PutNoObjects(acc, prefix + key, value); r else r
  }

  lemma LongerPrefix(x: string, a: string, b: string)
    requires StartsAt(x, 0, a + b)
    ensures StartsAt(x, 0, a)
  {
    assert x[..|a|] == (a + b)[..|a|];
  }

  /** An empty nested object contributes nothing. */
  lemma EmptyObjectVanishes(acc: Dict<string, Json>, key: string, prefix: string)
    ensures FlattenEntry(acc, key, JObj([]), prefix) == acc
  {
    assert Flatten([], prefix + key + ".") == [];
  }

  // ------------------------------------------------------------------ leaves

  /** A path from the root to a value, and the value. */
  type Leaf = (seq<string>, Json)

  /** The non-dict values of a tree with their paths, in the order `flatten` visits them. */
  function Leaves(fields: Dict<string, Json>): (ls: seq<Leaf>)
    ensures forall j :: 0 <= j < |ls| ==> |ls[j].0| >= 1 && !ls[j].1.JObj?
    decreases JObj(fields), 1
  {
    LeavesFrom(fields, 0)
  }

  function LeavesFrom(fields: Dict<string, Json>, i: nat): (ls: seq<Leaf>)
    requires i <= |fields|
    ensures forall j :: 0 <= j < |ls| ==> |ls[j].0| >= 1 && !ls[j].1.JObj?
    decreases JObj(fields), 0, |fields| - i
  {
    if i == |fields| then []
    else
      assert fields[i] in fields;
      EntryLeaves(fields[i].0, fields[i].1) + LeavesFrom(fields, i + 1)
  }

  function EntryLeaves(key: string, value: Json): (ls: seq<Leaf>)
    ensures forall j :: 0 <= j < |ls| ==> |ls[j].0| >= 1 && !ls[j].1.JObj?
    decreases value, 2
  {
    if value.JObj? then Prefixed(key, Leaves(value.fields)) else [([key], value)]
  }

  /** The flat entries for some leaves: each path joined with `.`, after `prefix`. */
  function Joined(prefix: string, ls: seq<Leaf>): (r: Dict<string, Json>)
    requires forall j :: 0 <= j < |ls| ==> |ls[j].0| >= 1
    ensures |r| == |ls|
    ensures forall j :: 0 <= j < |ls| ==> r[j] == (prefix + Join(ls[j].0, '.'), ls[j].1)
  {
    seq(|ls|, j requires 0 <= j < |ls| => (prefix + Join(ls[j].0, '.'), ls[j].1))
  }

  /**
    The trees the codec round-trips: keys are unique and free of `.`, and
    every nested object is non-empty and plain itself.
   */
  predicate Plain(fields: Dict<string, Json>)
    decreases JObj(fields)
  {
    UniqueKeys(fields) &&
    forall i :: 0 <= i < |fields| ==>
      '.' !in fields[i].0 && (fields[i].1.JObj? ==> |fields[i].1.fields| > 0 && Plain(fields[i].1.fields))
  }
  // ------------------------------------------------- flatten of a plain tree

  /** `s` is `prefix + k`, or continues it with a `.`: a key `flatten` makes under `k`. */
  predicate UnderKey(s: string, prefix: string, k: string) {
    StartsAt(s, 0, prefix + k) && (|s| == |prefix| + |k| || s[|prefix| + |k|] == '.')
  }

  /** A key lies under at most one dot-free name. */
  lemma UnderKeyUnique(s: string, prefix: string, k1: string, k2: string)
    requires '.' !in k1 && '.' !in k2
    requires UnderKey(s, prefix, k1) && UnderKey(s, prefix, k2)
    ensures k1 == k2
  {
    var p := |prefix|;
    assert forall m :: 0 <= m < |k1| ==> s[p + m] == (prefix + k1)[p + m] == k1[m];
    assert forall m :: 0 <= m < |k2| ==> s[p + m] == (prefix + k2)[p + m] == k2[m];
    assert |s| == p + |k1| || s[p + |k1|] == '.';
    assert |s| == p + |k2| || s[p + |k2|] == '.';
    assert |k1| == |k2|;
  }

  lemma DotUnder(x: string, prefix: string, key: string)
    requires StartsAt(x, 0, prefix + key + ".")
    ensures UnderKey(x, prefix, key)
  {
    LongerPrefix(x, prefix + key, ".");
    assert x[|prefix| + |key|] == (prefix + key + ".")[|prefix| + |key|];
  }

  lemma JoinCons(k: string, p: seq<string>)
    requires |p| >= 1
    ensures Join([k] + p, '.') == k + "." + Join(p, '.')
  {
    assert ([k] + p)[1..] == p;
  }

  /** The key of a leaf lies under the first step of its path. */
  lemma JoinUnder(prefix: string, p: seq<string>)
    requires |p| >= 1
    ensures UnderKey(prefix + Join(p, '.'), prefix, p[0])
  {
    if |p| > 1 {
      JoinCons(p[0], p[1..]);
      assert [p[0]] + p[1..] == p;
      var s := prefix + Join(p, '.');
      assert s == prefix + p[0] + "." + Join(p[1..], '.');
      assert s[..|prefix| + |p[0]|] == prefix + p[0];
      assert s[|prefix| + |p[0]|] == '.';
    }
  }

  lemma JoinedConcat(prefix: string, a: seq<Leaf>, b: seq<Leaf>)
    requires forall j :: 0 <= j < |a| ==> |a[j].0| >= 1
    requires forall j :: 0 <= j < |b| ==> |b[j].0| >= 1
    ensures Joined(prefix, a + b) == Joined(prefix, a) + Joined(prefix, b)
  {
  }

  lemma JoinedPrefixed(prefix: string, key: string, ls: seq<Leaf>)
    requires forall j :: 0 <= j < |ls| ==> |ls[j].0| >= 1
    ensures Joined(prefix + key + ".", ls) == Joined(prefix, Prefixed(key, ls))
  {
    forall j | 0 <= j < |ls| ensures Joined(prefix + key + ".", ls)[j] == Joined(prefix, Prefixed(key, ls))[j] {
      JoinCons(key, ls[j].0);
      assert prefix + key + "." + Join(ls[j].0, '.') == prefix + (key + "." + Join(ls[j].0, '.'));
    }
  }

  /** Every leaf of an entry starts at the entry's key. */
  lemma EntryLeavesStart(key: string, value: Json)
    ensures forall j :: 0 <= j < |EntryLeaves(key, value)| ==> EntryLeaves(key, value)[j].0[0] == key
  {
  }

  /** `flatten` of a plain tree lists its leaves in order, each under its joined path. */
  lemma FlattenJoined(fields: Dict<string, Json>, prefix: string)
    requires Plain(fields)
    ensures Flatten(fields, prefix) == Joined(prefix, Leaves(fields))
    decreases JObj(fields), 1
  {
    FlattenFromJoined([], fields, 0, prefix);
  }

  lemma FlattenFromJoined(acc: Dict<string, Json>, fields: Dict<string, Json>, i: nat, prefix: string)
    requires i <= |fields| && Plain(fields)
    requires forall a, j :: 0 <= a < |acc| && i <= j < |fields| ==> !UnderKey(acc[a].0, prefix, fields[j].0)
    ensures FlattenFrom(acc, fields, i, prefix) == acc + Joined(prefix, LeavesFrom(fields, i))
    decreases JObj(fields), 0, |fields| - i
  {
    if i < |fields| {
      var ls := EntryLeaves(fields[i].0, fields[i].1);
      var rest := LeavesFrom(fields, i + 1);
      var acc' := acc + Joined(prefix, ls);
      FlattenFromStep(acc, fields, i, prefix);
      FlattenFromJoined(acc', fields, i + 1, prefix);
      JoinedConcat(prefix, ls, rest);
      ConcatAssoc(acc, Joined(prefix, ls), Joined(prefix, rest));
    }
  }

  /** One iteration of the loop over a plain tree appends the field's joined leaves. */
  lemma FlattenFromStep(acc: Dict<string, Json>, fields: Dict<string, Json>, i: nat, prefix: string)
    requires i < |fields| && Plain(fields)
    requires forall a, j :: 0 <= a < |acc| && i <= j < |fields| ==> !UnderKey(acc[a].0, prefix, fields[j].0)
    ensures var acc' := acc + Joined(prefix, EntryLeaves(fields[i].0, fields[i].1));
      FlattenFrom(acc, fields, i, prefix) == FlattenFrom(acc', fields, i + 1, prefix)
    ensures LeavesFrom(fields, i) == EntryLeaves(fields[i].0, fields[i].1) + LeavesFrom(fields, i + 1)
    ensures var acc' := acc + Joined(prefix, EntryLeaves(fields[i].0, fields[i].1));
      forall a, j :: 0 <= a < |acc'| && i + 1 <= j < |fields| ==> !UnderKey(acc'[a].0, prefix, fields[j].0)
    decreases JObj(fields), 0, |fields| - i, 0
  {
    LaterStillFree(acc, fields, i, prefix);
    assert fields[i] in fields;
    EntryJoined(acc, fields[i].0, fields[i].1, prefix);
  }

  /** After the `i`-th field is flattened, no key made so far lies under a later field's key. */
  lemma LaterStillFree(acc: Dict<string, Json>, fields: Dict<string, Json>, i: nat, prefix: string)
    requires i < |fields| && Plain(fields)
    requires forall a, j :: 0 <= a < |acc| && i <= j < |fields| ==> !UnderKey(acc[a].0, prefix, fields[j].0)
    ensures var acc' := acc + Joined(prefix, EntryLeaves(fields[i].0, fields[i].1));
      forall a, j :: 0 <= a < |acc'| && i + 1 <= j < |fields| ==> !UnderKey(acc'[a].0, prefix, fields[j].0)
  {
    var acc' := acc + Joined(prefix, EntryLeaves(fields[i].0, fields[i].1));
    forall a, j | 0 <= a < |acc'| && i + 1 <= j < |fields| ensures !UnderKey(acc'[a].0, prefix, fields[j].0) {
      if a >= |acc| {
        LeafNotUnderLater(fields, i, j, prefix, a - |acc|);
      }
    }
  }

  /** A leaf of the `i`-th field is not under a later field's key. */
  lemma LeafNotUnderLater(fields: Dict<string, Json>, i: nat, j: nat, prefix: string, m: nat)
    requires i < j < |fields| && Plain(fields)
    requires m < |EntryLeaves(fields[i].0, fields[i].1)|
    ensures !UnderKey(Joined(prefix, EntryLeaves(fields[i].0, fields[i].1))[m].0, prefix, fields[j].0)
  {
    var ls := EntryLeaves(fields[i].0, fields[i].1);
    EntryLeavesStart(fields[i].0, fields[i].1);
    JoinUnder(prefix, ls[m].0);
    UniqueKeysDistinct(fields, i, j);
    var s := Joined(prefix, ls)[m].0;
    if UnderKey(s, prefix, fields[j].0) {
      UnderKeyUnique(s, prefix, fields[i].0, fields[j].0);
    }
  }

  lemma EntryJoined(acc: Dict<string, Json>, key: string, value: Json, prefix: string)
    requires '.' !in key && (value.JObj? ==> Plain(value.fields))
    requires forall a :: 0 <= a < |acc| ==> !UnderKey(acc[a].0, prefix, key)
    ensures FlattenEntry(acc, key, value, prefix) == acc + Joined(prefix, EntryLeaves(key, value))
    decreases value, 2
  {
    if value.JObj? {
      var sub := Flatten(value.fields, prefix + key + ".");
      FlattenJoined(value.fields, prefix + key + ".");
      forall m | 0 <= m < |sub| ensures !HasKey(acc, sub[m].0) {
        AtHasKey(sub, m);
        DotUnder(sub[m].0, prefix, key);
        if HasKey(acc, sub[m].0) {
          var a := HasKeyAt(acc, sub[m].0);
        }
      }
      UpdateFresh(acc, sub);
      JoinedPrefixed(prefix, key, Leaves(value.fields));
    } else {
      assert UnderKey(prefix + key, prefix, key);
      if HasKey(acc, prefix + key) {
        var a := HasKeyAt(acc, prefix + key);
      }
      PutFresh(acc, prefix + key, value);
    }
  }
  // --------------------------------------------------------------- unflatten

  /**
    The inner loop of `unflatten_json`: walk `parts[..|parts|-1]` from `d`,
    creating a missing dict at each step, and store `v` under the last part.
    Stepping into a present value that is not a dict raises `TypeError`,
    whatever its type: `None` here.
   */
  function SetPath(d: Dict<string, Json>, parts: seq<string>, v: Json): (r: Option<Dict<string, Json>>)
    requires |parts| >= 1
    decreases |parts|
  {
    if |parts| == 1 then Some(Put(d, parts[0], v))
    else
      var inner := match Get(d, parts[0])
        case None => Some([])
        case Some(child) => if child.JObj? then Some(child.fields) else None;
      match inner
      case None => None
      case Some(g) =>
        match SetPath(g, parts[1..], v)
        case None => None
        case Some(g') => Some(Put(d, parts[0], JObj(g')))
  }

  /** The outer loop of `unflatten_json` over the entries of `m`, in order, into `acc`. */
  function UnflattenInto(acc: Dict<string, Json>, m: Dict<string, Json>): (r: Option<Dict<string, Json>>)
    decreases |m|
  {
    if |m| == 0 then Some(acc)
    else
      match SetPath(acc, Split(m[0].0, '.'), m[0].1)
      case None => None
      case Some(acc') => UnflattenInto(acc', m[1..])
  }

  /** `unflatten_json(flat)`: the nested dict, or `None` where Python raises. */
  function Unflatten(m: Dict<string, Json>): Option<Dict<string, Json>> {
    UnflattenInto([], m)
  }

  /** The same loop over leaves whose paths are already split. */
  function InsertAll(acc: Dict<string, Json>, ls: seq<Leaf>): Option<Dict<string, Json>>
    requires forall j :: 0 <= j < |ls| ==> |ls[j].0| >= 1
    decreases |ls|
  {
    if |ls| == 0 then Some(acc)
    else
      match SetPath(acc, ls[0].0, ls[0].1)
      case None => None
      case Some(acc') => InsertAll(acc', ls[1..])
  }

  /** No step of any path holds a `.`. */
  predicate DotFree(ls: seq<Leaf>) {
    forall j :: 0 <= j < |ls| ==> forall p :: p in ls[j].0 ==> '.' !in p
  }

  /** Splitting the joined keys again recovers the paths. */
  lemma {:induction false} UnflattenJoined(acc: Dict<string, Json>, ls: seq<Leaf>)
    requires forall j :: 0 <= j < |ls| ==> |ls[j].0| >= 1
    requires DotFree(ls)
    ensures UnflattenInto(acc, Joined("", ls)) == InsertAll(acc, ls)
    decreases |ls|
  {
    if |ls| > 0 {
      var m := Joined("", ls);
      assert m[0].0 == Join(ls[0].0, '.');
      SplitJoin(ls[0].0, '.');
      assert m[1..] == Joined("", ls[1..]);
      match SetPath(acc, ls[0].0, ls[0].1)
      case None =>
      case Some(acc') => UnflattenJoined(acc', ls[1..]);
    }
  }

  /** `InsertAll` over two runs of leaves is the second run inserted into the result of the first. */
  lemma {:induction false} InsertAllConcat(acc: Dict<string, Json>, a: seq<Leaf>, b: seq<Leaf>)
    requires forall j :: 0 <= j < |a| ==> |a[j].0| >= 1
    requires forall j :: 0 <= j < |b| ==> |b[j].0| >= 1
    ensures InsertAll(acc, a + b) == match InsertAll(acc, a) { case None => None case Some(x) => InsertAll(x, b) }
    decreases |a|
  {
    if |a| > 0 {
      assert (a + b)[1..] == a[1..] + b;
      match SetPath(acc, a[0].0, a[0].1)
      case None =>
      case Some(acc') => InsertAllConcat(acc', a[1..], b);
    } else {
      assert a + b == b;
    }
  }

  /** The result of inserting leaves one level down, under `key`, once `key` holds the dict `h`. */
  function Under(pre: Dict<string, Json>, key: string, r: Option<Dict<string, Json>>): Option<Dict<string, Json>> {
    match r
    case None => None
    case Some(g) => Some(pre + [(key, JObj(g))])
  }

  /** Leaves under `key` all land in the dict stored last under `key`. */
  lemma {:induction false} InsertPrefixedInto(pre: Dict<string, Json>, key: string, h: Dict<string, Json>, ls: seq<Leaf>)
    requires !HasKey(pre, key)
    requires forall j :: 0 <= j < |ls| ==> |ls[j].0| >= 1
    ensures InsertAll(pre + [(key, JObj(h))], Prefixed(key, ls)) == Under(pre, key, InsertAll(h, ls))
    decreases |ls|
  {
    if |ls| > 0 {
      var d := pre + [(key, JObj(h))];
      var path := [key] + ls[0].0;
      PutLast(pre, key, JObj(h), JObj(h));
      assert path[1..] == ls[0].0;
      assert Prefixed(key, ls)[1..] == Prefixed(key, ls[1..]);
      match SetPath(h, ls[0].0, ls[0].1)
      case None =>
      case Some(h') =>
        PutLast(pre, key, JObj(h), JObj(h'));
        InsertPrefixedInto(pre, key, h', ls[1..]);
    }
  }

  /** The first leaf under a fresh `key` creates the dict for it, and the rest follow it there. */
  lemma InsertPrefixed(pre: Dict<string, Json>, key: string, ls: seq<Leaf>)
    requires !HasKey(pre, key)
    requires |ls| >= 1 && forall j :: 0 <= j < |ls| ==> |ls[j].0| >= 1
    ensures InsertAll(pre, Prefixed(key, ls)) == Under(pre, key, InsertAll([], ls))
  {
    var path := [key] + ls[0].0;
    assert path[1..] == ls[0].0;
    assert Prefixed(key, ls)[1..] == Prefixed(key, ls[1..]);
    assert Get(pre, key) == None;
    match SetPath([], ls[0].0, ls[0].1)
    case None =>
    case Some(h) =>
      PutFresh(pre, key, JObj(h));
      InsertPrefixedInto(pre, key, h, ls[1..]);
  }
  lemma DotFreeConcat(a: seq<Leaf>, b: seq<Leaf>)
    requires DotFree(a) && DotFree(b)
    ensures DotFree(a + b)
  {
    forall j | 0 <= j < |a + b| ensures forall p :: p in (a + b)[j].0 ==> '.' !in p {
      if j >= |a| {
        assert (a + b)[j] == b[j - |a|];
      }
    }
  }

  lemma DotFreePrefixed(key: string, ls: seq<Leaf>)
    requires DotFree(ls) && '.' !in key
    ensures DotFree(Prefixed(key, ls))
  {
    forall j | 0 <= j < |ls| ensures forall p :: p in Prefixed(key, ls)[j].0 ==> '.' !in p {
      assert Prefixed(key, ls)[j].0 == [key] + ls[j].0;
    }
  }

  /** Unflattening the leaves of a plain tree, in order, rebuilds the tree after what `acc` holds. */
  lemma InsertLeavesFrom(acc: Dict<string, Json>, fields: Dict<string, Json>, i: nat)
    requires i <= |fields| && Plain(fields)
    requires forall j :: i <= j < |fields| ==> !HasKey(acc, fields[j].0)
    ensures InsertAll(acc, LeavesFrom(fields, i)) == Some(acc + fields[i..])
    ensures |LeavesFrom(fields, i)| >= |fields| - i && DotFree(LeavesFrom(fields, i))
    decreases JObj(fields), 0, |fields| - i
  {
    if i < |fields| {
      var ls := EntryLeaves(fields[i].0, fields[i].1);
      var rest := LeavesFrom(fields, i + 1);
      var acc' := acc + [fields[i]];
      InsertLeavesStep(acc, fields, i);
      InsertLeavesFrom(acc', fields, i + 1);
      InsertAllConcat(acc, ls, rest);
      DotFreeConcat(ls, rest);
      AppendFirst(acc, fields[i..]);
      assert fields[i..][0] == fields[i] && fields[i..][1..] == fields[i + 1..];
    } else {
      assert acc + fields[i..] == acc;
    }
  }

  /** One field of the loop: its leaves put it after `acc`, and later keys stay fresh. */
  lemma InsertLeavesStep(acc: Dict<string, Json>, fields: Dict<string, Json>, i: nat)
    requires i < |fields| && Plain(fields)
    requires forall j :: i <= j < |fields| ==> !HasKey(acc, fields[j].0)
    ensures InsertAll(acc, EntryLeaves(fields[i].0, fields[i].1)) == Some(acc + [fields[i]])
    ensures |EntryLeaves(fields[i].0, fields[i].1)| >= 1 && DotFree(EntryLeaves(fields[i].0, fields[i].1))
    ensures LeavesFrom(fields, i) == EntryLeaves(fields[i].0, fields[i].1) + LeavesFrom(fields, i + 1)
    ensures forall j :: i + 1 <= j < |fields| ==> !HasKey(acc + [fields[i]], fields[j].0)
    decreases JObj(fields), 0, |fields| - i, 0
  {
    assert fields[i] in fields;
    InsertEntry(acc, fields[i].0, fields[i].1);
    forall j | i + 1 <= j < |fields| ensures !HasKey(acc + [fields[i]], fields[j].0) {
      UniqueKeysDistinct(fields, i, j);
      HasKeyConcat(acc, [fields[i]], fields[j].0);
    }
  }

  /** Unflattening the leaves of a plain tree from nothing rebuilds it. */
  lemma InsertLeaves(fields: Dict<string, Json>)
    requires Plain(fields)
    ensures InsertAll([], Leaves(fields)) == Some(fields)
    ensures |Leaves(fields)| >= |fields| && DotFree(Leaves(fields))
    decreases JObj(fields), 1
  {
    InsertLeavesFrom([], fields, 0);
    assert [] + fields[0..] == fields;
  }

  lemma InsertEntry(acc: Dict<string, Json>, key: string, value: Json)
    requires !HasKey(acc, key) && '.' !in key
    requires value.JObj? ==> |value.fields| > 0 && Plain(value.fields)
    ensures InsertAll(acc, EntryLeaves(key, value)) == Some(acc + [(key, value)])
    ensures |EntryLeaves(key, value)| >= 1 && DotFree(EntryLeaves(key, value))
    decreases value, 2
  {
    if value.JObj? {
      InsertLeaves(value.fields);
      InsertPrefixed(acc, key, Leaves(value.fields));
      DotFreePrefixed(key, Leaves(value.fields));
    } else {
      PutFresh(acc, key, value);
    }
  }

  /** Round trip: `unflatten_json(flatten_json(t))` is `t` for every plain tree `t`. */
  lemma RoundTrip(fields: Dict<string, Json>)
    requires Plain(fields)
    ensures Unflatten(Flatten(fields, "")) == Some(fields)
  {
    FlattenJoined(fields, "");
    InsertLeaves(fields);
    UnflattenJoined([], Leaves(fields));
  }
  // ------------------------------------------------------- path semantics

  /** `d[parts[0]][parts[1]]...`: the value at a path, if every step but the last is a dict. */
  function At(d: Dict<string, Json>, parts: seq<string>): Option<Json>
    requires |parts| >= 1
    decreases |parts|
  {
    match Get(d, parts[0])
    case None => None
    case Some(v) =>
      if |parts| == 1 then Some(v)
      else if v.JObj? then At(v.fields, parts[1..])
      else None
  }

  /** After a successful `SetPath`, the value sits at its path. */
  lemma {:induction false} SetPathAt(d: Dict<string, Json>, parts: seq<string>, v: Json)
    requires |parts| >= 1 && SetPath(d, parts, v).Some?
    ensures At(SetPath(d, parts, v).value, parts) == Some(v)
    decreases |parts|
  {
    if |parts| == 1 {
      GetPut(d, parts[0], v, parts[0]);
    } else {
      var g := match Get(d, parts[0]) case None => [] case Some(child) => child.fields;
      SetPathAt(g, parts[1..], v);
      GetPut(d, parts[0], JObj(SetPath(g, parts[1..], v).value), parts[0]);
    }
  }

  /** Setting the same path twice keeps only the later value: for a repeated path the later entry wins. */
  lemma {:induction false} SetPathTwice(d: Dict<string, Json>, parts: seq<string>, v: Json, w: Json)
    requires |parts| >= 1 && SetPath(d, parts, v).Some?
    ensures SetPath(SetPath(d, parts, v).value, parts, w) == SetPath(d, parts, w)
    decreases |parts|
  {
    var k := parts[0];
    if |parts| == 1 {
      PutPut(d, k, v, w);
    } else {
      var g := match Get(d, k) case None => [] case Some(child) => child.fields;
      var g1 := SetPath(g, parts[1..], v).value;
      var d1 := Put(d, k, JObj(g1));
      assert SetPath(d, parts, v) == Some(d1);
      GetPut(d, k, JObj(g1), k);
      SetPathTwice(g, parts[1..], v, w);
      match SetPath(g, parts[1..], w)
      case None =>
        assert SetPath(d1, parts, w) == None;
      case Some(g2) =>
        PutPut(d, k, JObj(g1), JObj(g2));
        assert SetPath(d1, parts, w) == Some(Put(d1, k, JObj(g2)));
        assert SetPath(d, parts, w) == Some(Put(d, k, JObj(g2)));
    }
  }

  /** A key that is a dot-prefix of a later key whose value is not a dict makes `unflatten_json` raise. */
  lemma ConflictRaises()
    ensures Unflatten([("a", JStr("x")), ("a.b", JStr("y"))]) == None
  {
    assert Split("a", '.') == ["a"] by { SplitNoSeparator("a", "", '.', false); }
    assert Split("a.b", '.') == ["a", "b"] by {
      SplitNoSeparator("b", "", '.', false);
      SplitNoSeparator("a", "b", '.', true);
      assert "a" + ['.'] + "b" == "a.b";
    }
  }

  /** Without the side conditions the round trip fails: an empty nested object is lost. */
  lemma EmptyObjectLost()
    ensures Unflatten(Flatten([("a", JObj([]))], "")) == Some([])
  {
    EmptyObjectVanishes([], "a", "");
  }

  /** Without the side conditions the round trip fails: a dotted key comes back nested. */
  lemma DottedKeyNests()
    ensures Unflatten(Flatten([("a.b", JStr("x"))], "")) == Some([("a", JObj([("b", JStr("x"))]))])
  {
    var t: Dict<string, Json> := [("a.b", JStr("x"))];
    assert "" + "a.b" == "a.b";
    assert FlattenEntry([], "a.b", JStr("x"), "") == t;
    assert Flatten(t, "") == t;
    assert Split("a.b", '.') == ["a", "b"] by {
      SplitNoSeparator("b", "", '.', false);
      SplitNoSeparator("a", "b", '.', true);
      assert "a" + ['.'] + "b" == "a.b";
    }
    assert SetPath([], ["b"], JStr("x")) == Some([("b", JStr("x"))]);
    assert ["a", "b"][1..] == ["b"];
    assert SetPath([], ["a", "b"], JStr("x")) == Some([("a", JObj([("b", JStr("x"))]))]);
  }

  // ------------------------------------------------- unflatten of a flat table

  /** `q` is `p` or lies on the way to it: the steps of `p` start with those of `q`. */
  predicate IsPrefix(q: seq<string>, p: seq<string>) {
    |q| <= |p| && p[..|q|] == q
  }

  lemma PrefixStep(q: seq<string>, p: seq<string>)
    requires |q| >= 1 && |p| >= 1 && q[0] == p[0]
    ensures IsPrefix(q, p) <==> IsPrefix(q[1..], p[1..])
  {
    if IsPrefix(q[1..], p[1..]) {
      assert p[..|q|] == [p[0]] + p[1..][..|q| - 1];
      assert q == [q[0]] + q[1..];
    }
    if IsPrefix(q, p) {
      assert p[1..][..|q| - 1] == p[..|q|][1..];
    }
  }

  /** `v` sits at `p` in `d` and is not a dict: a leaf of the tree. */
  predicate IsLeaf(d: Dict<string, Json>, p: seq<string>, v: Json) {
    |p| >= 1 && At(d, p) == Some(v) && !v.JObj?
  }

  /** Whatever a path reaches is nothing, a dict or a leaf. */
  lemma LeafOrDict(d: Dict<string, Json>, p: seq<string>)
    requires |p| >= 1
    ensures At(d, p).None? || At(d, p).value.JObj? || IsLeaf(d, p, At(d, p).value)
  {
  }

  /** The leaves of `d` are exactly the pairs of `ls`. */
  ghost predicate LeavesAre(d: Dict<string, Json>, ls: seq<Leaf>) {
    forall p, v :: IsLeaf(d, p, v) <==> (p, v) in ls
  }

  /** The split keys of a flat table, each with its value. */
  function SplitAll(m: Dict<string, Json>): (ls: seq<Leaf>)
    ensures |ls| == |m|
    ensures forall j :: 0 <= j < |m| ==> ls[j] == (Split(m[j].0, '.'), m[j].1)
  {
    seq(|m|, j requires 0 <= j < |m| => (Split(m[j].0, '.'), m[j].1))
  }

  /** No path of `ls` is another's or leads through another's. */
  predicate Incomparable(ls: seq<Leaf>) {
    forall a, b :: 0 <= a < |ls| && 0 <= b < |ls| && a != b ==> !IsPrefix(ls[a].0, ls[b].0)
  }

  /** No key of `m` is another key followed by `.`: `a` and `a.b` are never both keys. */
  predicate NoDotPrefix(m: Dict<string, Json>) {
    forall i, j :: 0 <= i < |m| && 0 <= j < |m| ==> !StartsAt(m[j].0, 0, m[i].0 + ".")
  }

  /** When one key's steps start another's, the keys are equal or the second continues the first after a `.`. */
  lemma SplitPrefix(a: string, b: string)
    requires IsPrefix(Split(a, '.'), Split(b, '.'))
    ensures a == b || StartsAt(b, 0, a + ".")
  {
    var pa := Split(a, '.');
    var pb := Split(b, '.');
    JoinSplit(a, '.');
    JoinSplit(b, '.');
    if |pa| == |pb| {
      assert pb == pa;
    } else {
      var rest := pb[|pa|..];
      assert pb == pa + rest;
      JoinConcat(pa, rest, '.');
      assert b == a + "." + Join(rest, '.');
      assert b[..|a| + 1] == a + ".";
    }
  }

  /** `SetPath` succeeds when no step before the last reaches a value that is not a dict. */
  lemma {:induction false} SetPathSucceeds(d: Dict<string, Json>, parts: seq<string>, v: Json)
    requires |parts| >= 1
    requires forall n :: 1 <= n < |parts| ==> At(d, parts[..n]).None? || At(d, parts[..n]).value.JObj?
    ensures SetPath(d, parts, v).Some?
    decreases |parts|
  {
    if |parts| > 1 {
      var k := parts[0];
      assert parts[..1] == [k];
      var g := match Get(d, k) case None => [] case Some(child) => child.fields;
      forall n | 1 <= n < |parts| - 1
        ensures At(g, parts[1..][..n]).None? || At(g, parts[1..][..n]).value.JObj?
      {
        assert parts[..n + 1][1..] == parts[1..][..n];
        assert parts[..n + 1][0] == k;
      }
      SetPathSucceeds(g, parts[1..], v);
    }
  }

  /** A path that neither leads to nor through the one set keeps its value. */
  lemma {:induction false} SetPathAtOther(d: Dict<string, Json>, parts: seq<string>, v: Json, q: seq<string>)
    requires |parts| >= 1 && |q| >= 1 && SetPath(d, parts, v).Some?
    requires !IsPrefix(q, parts) && !IsPrefix(parts, q)
    ensures At(SetPath(d, parts, v).value, q) == At(d, q)
    decreases |parts|
  {
    var k := parts[0];
    if |parts| == 1 {
      assert q[..1] == [q[0]];
      GetPut(d, k, v, q[0]);
    } else {
      var g := match Get(d, k) case None => [] case Some(child) => child.fields;
      var g' := SetPath(g, parts[1..], v).value;
      assert SetPath(d, parts, v) == Some(Put(d, k, JObj(g')));
      GetPut(d, k, JObj(g'), q[0]);
      if q[0] == k {
        assert parts[..1] == q[..1];
        PrefixStep(q, parts);
        PrefixStep(parts, q);
        SetPathAtOther(g, parts[1..], v, q[1..]);
      }
    }
  }

  /** Below a path set to a value that is not a dict there is nothing. */
  lemma {:induction false} SetPathAtBelow(d: Dict<string, Json>, parts: seq<string>, v: Json, q: seq<string>)
    requires |parts| >= 1 && SetPath(d, parts, v).Some? && !v.JObj?
    requires IsPrefix(parts, q) && |q| > |parts|
    ensures At(SetPath(d, parts, v).value, q) == None
    decreases |parts|
  {
    var k := parts[0];
    assert q[0] == q[..|parts|][0] == k;
    if |parts| == 1 {
      GetPut(d, k, v, k);
    } else {
      var g := match Get(d, k) case None => [] case Some(child) => child.fields;
      var g' := SetPath(g, parts[1..], v).value;
      assert SetPath(d, parts, v) == Some(Put(d, k, JObj(g')));
      GetPut(d, k, JObj(g'), k);
      PrefixStep(parts, q);
      SetPathAtBelow(g, parts[1..], v, q[1..]);
    }
  }

  /** On the way to the path set there are only dicts. */
  lemma {:induction false} SetPathAtAbove(d: Dict<string, Json>, parts: seq<string>, v: Json, q: seq<string>)
    requires |parts| >= 1 && |q| >= 1 && SetPath(d, parts, v).Some?
    requires IsPrefix(q, parts) && |q| < |parts|
    ensures At(SetPath(d, parts, v).value, q).Some? && At(SetPath(d, parts, v).value, q).value.JObj?
    decreases |parts|
  {
    var k := parts[0];
    assert q[0] == parts[..|q|][0] == k;
    var g := match Get(d, k) case None => [] case Some(child) => child.fields;
    var g' := SetPath(g, parts[1..], v).value;
    assert SetPath(d, parts, v) == Some(Put(d, k, JObj(g')));
    GetPut(d, k, JObj(g'), k);
    if |q| > 1 {
      PrefixStep(q, parts);
      SetPathAtAbove(g, parts[1..], v, q[1..]);
    }
  }

  /** Storing a dot-free key with a leaf or a non-empty plain dict keeps a tree plain. */
  lemma PutPlain(d: Dict<string, Json>, k: string, x: Json)
    requires Plain(d) && '.' !in k
    requires x.JObj? ==> |x.fields| > 0 && Plain(x.fields)
    ensures Plain(Put(d, k, x)) && |Put(d, k, x)| > 0
  {
    var r := Put(d, k, x);
    PutPairs(d, k, x);
    forall i | 0 <= i < |r|
      ensures '.' !in r[i].0 && (r[i].1.JObj? ==> |r[i].1.fields| > 0 && Plain(r[i].1.fields))
    {
      assert r[i] in r;
      if r[i] != (k, x) {
        var j :| 0 <= j < |d| && d[j] == r[i];
      }
    }
    assert HasKey(r, k);
  }

  /** Setting a dot-free path to a value that is not a dict keeps a tree plain. */
  lemma {:induction false} SetPathPlain(d: Dict<string, Json>, parts: seq<string>, v: Json)
    requires |parts| >= 1 && SetPath(d, parts, v).Some? && Plain(d) && !v.JObj?
    requires forall p :: p in parts ==> '.' !in p
    ensures Plain(SetPath(d, parts, v).value) && |SetPath(d, parts, v).value| > 0
    decreases |parts|
  {
    var k := parts[0];
    assert k in parts;
    if |parts| == 1 {
      PutPlain(d, k, v);
    } else {
      var g := match Get(d, k) case None => [] case Some(child) => child.fields;
      if Get(d, k).Some? {
        GetIsPair(d, k);
        var i :| 0 <= i < |d| && d[i] == (k, Get(d, k).value);
      }
      assert forall p :: p in parts[1..] ==> p in parts;
      SetPathPlain(g, parts[1..], v);
      var g' := SetPath(g, parts[1..], v).value;
      assert SetPath(d, parts, v) == Some(Put(d, k, JObj(g')));
      PutPlain(d, k, JObj(g'));
    }
  }

  /** Setting a path that no leaf leads to or through adds exactly that leaf. */
  lemma SetPathLeaves(d: Dict<string, Json>, parts: seq<string>, v: Json, ls: seq<Leaf>)
    requires |parts| >= 1 && SetPath(d, parts, v).Some? && !v.JObj?
    requires LeavesAre(d, ls)
    requires forall a :: 0 <= a < |ls| ==> !IsPrefix(ls[a].0, parts) && !IsPrefix(parts, ls[a].0)
    ensures LeavesAre(SetPath(d, parts, v).value, ls + [(parts, v)])
  {
    var r := SetPath(d, parts, v).value;
    forall p, w ensures IsLeaf(r, p, w) <==> (p, w) in ls + [(parts, v)] {
      if (p, w) in ls {
        var a :| 0 <= a < |ls| && ls[a] == (p, w);
      }
      if |p| == 0 {
      } else if p == parts {
        SetPathAt(d, parts, v);
      } else if IsPrefix(p, parts) {
        SetPathAtAbove(d, parts, v, p);
      } else if IsPrefix(parts, p) {
        SetPathAtBelow(d, parts, v, p);
      } else {
        SetPathAtOther(d, parts, v, p);
      }
    }
  }

  /** A pair is among the leaves from the `i`-th field on exactly when it is a leaf of one of those fields. */
  lemma {:induction false} InLeavesFrom(fields: Dict<string, Json>, i: nat, x: Leaf)
    requires i <= |fields|
    ensures x in LeavesFrom(fields, i) <==> exists j :: i <= j < |fields| && x in EntryLeaves(fields[j].0, fields[j].1)
    decreases |fields| - i
  {
    if i < |fields| {
      var e := EntryLeaves(fields[i].0, fields[i].1);
      assert LeavesFrom(fields, i) == e + LeavesFrom(fields, i + 1);
      InLeavesFrom(fields, i + 1, x);
      if x in e {
        assert i <= i < |fields| && x in EntryLeaves(fields[i].0, fields[i].1);
      } else if exists j :: i <= j < |fields| && x in EntryLeaves(fields[j].0, fields[j].1) {
        var j :| i <= j < |fields| && x in EntryLeaves(fields[j].0, fields[j].1);
        assert i + 1 <= j;
      }
    }
  }

  /** The leaves `Leaves` lists are the leaves `At` finds. */
  lemma LeavesAt(fields: Dict<string, Json>, p: seq<string>, v: Json)
    requires Plain(fields)
    ensures (p, v) in Leaves(fields) <==> IsLeaf(fields, p, v)
    decreases JObj(fields), 1
  {
    InLeavesFrom(fields, 0, (p, v));
    if (p, v) in Leaves(fields) {
      var j :| 0 <= j < |fields| && (p, v) in EntryLeaves(fields[j].0, fields[j].1);
      assert fields[j] in fields;
      EntryLeavesAt(fields, j, p, v);
    } else if IsLeaf(fields, p, v) {
      var j := HasKeyAt(fields, p[0]);
      assert fields[j] in fields;
      EntryLeavesAt(fields, j, p, v);
    }
  }

  /** The leaves of one field are the leaves `At` finds through its key. */
  lemma EntryLeavesAt(fields: Dict<string, Json>, j: nat, p: seq<string>, v: Json)
    requires Plain(fields) && j < |fields|
    ensures (p, v) in EntryLeaves(fields[j].0, fields[j].1) <==> |p| >= 1 && p[0] == fields[j].0 && IsLeaf(fields, p, v)
    decreases fields[j].1, 2
  {
    var key := fields[j].0;
    var value := fields[j].1;
    if value.JObj? {
      InPrefixed(key, Leaves(value.fields), p, v);
      if |p| >= 1 && p[0] == key {
        AtField(fields, j, p);
        assert Plain(value.fields);
        LeavesAt(value.fields, p[1..], v);
      }
    } else {
      assert EntryLeaves(key, value) == [([key], value)];
      if |p| >= 1 && p[0] == key {
        AtField(fields, j, p);
        if |p| == 1 {
          assert p == [key];
        }
      }
    }
  }

  /** A path starting at a key of a tree continues in that key's value. */
  lemma AtField(fields: Dict<string, Json>, j: nat, p: seq<string>)
    requires UniqueKeys(fields) && j < |fields|
    requires |p| >= 1 && p[0] == fields[j].0
    ensures At(fields, p) == if |p| == 1 then Some(fields[j].1)
      else if fields[j].1.JObj? then At(fields[j].1.fields, p[1..]) else None
  {
    GetAt(fields, j);
  }

  /**
    The outer loop of `unflatten_json` over `m`, from a plain tree whose
    leaves are `ls`: when no path among `ls` and the split keys of `m`
    leads to or through another, every step succeeds, and the leaves of
    the result are those of `ls` and the split keys of `m` with their values.
   */
  lemma {:induction false} InsertLeavesAre(acc: Dict<string, Json>, m: Dict<string, Json>, ls: seq<Leaf>)
    requires Plain(acc) && LeavesAre(acc, ls) && NoObjects(m)
    requires Incomparable(ls + SplitAll(m))
    ensures UnflattenInto(acc, m).Some?
    ensures Plain(UnflattenInto(acc, m).value)
    ensures LeavesAre(UnflattenInto(acc, m).value, ls + SplitAll(m))
    decreases |m|
  {
    if |m| == 0 {
      assert ls + SplitAll(m) == ls;
    } else {
      var all := ls + SplitAll(m);
      var parts := Split(m[0].0, '.');
      var v := m[0].1;
      assert all[|ls|] == (parts, v);
      forall a | 0 <= a < |ls| ensures !IsPrefix(ls[a].0, parts) && !IsPrefix(parts, ls[a].0) {
        assert all[a] == ls[a];
      }
      SetPathStep(acc, ls, parts, v);
      var ls' := ls + [(parts, v)];
      assert all == ls' + SplitAll(m[1..]);
      InsertLeavesAre(SetPath(acc, parts, v).value, m[1..], ls');
    }
  }

  /** One step of that loop: a dot-free path that no leaf leads to or through is set, and becomes a leaf. */
  lemma SetPathStep(acc: Dict<string, Json>, ls: seq<Leaf>, parts: seq<string>, v: Json)
    requires |parts| >= 1 && !v.JObj? && Plain(acc) && LeavesAre(acc, ls)
    requires forall p :: p in parts ==> '.' !in p
    requires forall a :: 0 <= a < |ls| ==> !IsPrefix(ls[a].0, parts) && !IsPrefix(parts, ls[a].0)
    ensures SetPath(acc, parts, v).Some?
    ensures Plain(SetPath(acc, parts, v).value)
    ensures LeavesAre(SetPath(acc, parts, v).value, ls + [(parts, v)])
  {
    forall n | 1 <= n < |parts| ensures At(acc, parts[..n]).None? || At(acc, parts[..n]).value.JObj? {
      var q := parts[..n];
      assert IsPrefix(q, parts);
      LeafOrDict(acc, q);
    }
    SetPathSucceeds(acc, parts, v);
    SetPathPlain(acc, parts, v);
    SetPathLeaves(acc, parts, v, ls);
  }

  /** Distinct keys, none a dot-prefix of another, split into paths none of which leads to or through another. */
  lemma SplitAllIncomparable(m: Dict<string, Json>)
    requires UniqueKeys(m) && NoDotPrefix(m)
    ensures Incomparable(SplitAll(m))
  {
    var ls := SplitAll(m);
    forall a, b | 0 <= a < |ls| && 0 <= b < |ls| && a != b ensures !IsPrefix(ls[a].0, ls[b].0) {
      if IsPrefix(ls[a].0, ls[b].0) {
        SplitPrefix(m[a].0, m[b].0);
        if a < b {
          UniqueKeysDistinct(m, a, b);
        } else {
          UniqueKeysDistinct(m, b, a);
        }
      }
    }
  }

  /** Every flattened key of a tree whose leaves are the split keys of `m` is a key of `m`, with its value. */
  lemma FlatKeyInTable(t: Dict<string, Json>, m: Dict<string, Json>, x: string)
    requires Plain(t) && LeavesAre(t, SplitAll(m)) && UniqueKeys(m)
    requires HasKey(Flatten(t, ""), x)
    ensures HasKey(m, x) && ToMap(Flatten(t, ""))[x] == ToMap(m)[x]
  {
    FlattenJoined(t, "");
    var f := Flatten(t, "");
    var lv := Leaves(t);
    var a := HasKeyAt(f, x);
    LeavesAt(t, lv[a].0, lv[a].1);
    var i :| 0 <= i < |m| && SplitAll(m)[i] == lv[a];
    JoinSplit(m[i].0, '.');
    assert x == m[i].0;
    GetAt(f, a);
    GetAt(m, i);
    AtHasKey(m, i);
  }

  /** Every key of `m` is a flattened key of a tree whose leaves are the split keys of `m`. */
  lemma TableKeyFlat(t: Dict<string, Json>, m: Dict<string, Json>, x: string)
    requires Plain(t) && LeavesAre(t, SplitAll(m))
    requires HasKey(m, x)
    ensures HasKey(Flatten(t, ""), x)
  {
    FlattenJoined(t, "");
    var lv := Leaves(t);
    var i := HasKeyAt(m, x);
    LeavesAt(t, SplitAll(m)[i].0, SplitAll(m)[i].1);
    var a :| 0 <= a < |lv| && lv[a] == SplitAll(m)[i];
    JoinSplit(x, '.');
    AtHasKey(Flatten(t, ""), a);
  }

  /**
    The round trip the other way: `flatten_json(unflatten_json(m))` holds
    the same pairs as `m` when its keys are unique, no value is a dict and
    no key is another key followed by `.`; only the order may differ.
   */
  lemma ConverseRoundTrip(m: Dict<string, Json>)
    requires UniqueKeys(m) && NoObjects(m) && NoDotPrefix(m)
    ensures Unflatten(m).Some?
    ensures ToMap(Flatten(Unflatten(m).value, "")) == ToMap(m)
  {
    SplitAllIncomparable(m);
    assert [] + SplitAll(m) == SplitAll(m);
    InsertLeavesAre([], m, []);
    FlatTablesAgree(Unflatten(m).value, m);
  }

  /** A plain tree whose leaves are the split keys of `m` flattens to the pairs of `m`. */
  lemma FlatTablesAgree(t: Dict<string, Json>, m: Dict<string, Json>)
    requires Plain(t) && LeavesAre(t, SplitAll(m)) && UniqueKeys(m)
    ensures ToMap(Flatten(t, "")) == ToMap(m)
  {
    var f := ToMap(Flatten(t, ""));
    var g := ToMap(m);
    forall x | x in f ensures x in g && f[x] == g[x] {
      FlatKeyInTable(t, m, x);
    }
    forall x | x in g ensures x in f {
      TableKeyFlat(t, m, x);
    }
    assert f.Keys == g.Keys;
  }
}
